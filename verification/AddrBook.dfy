/** The tables of the address manager and the elementary changes made to them.

    Six structures hold overlapping information: the entries by id, the ids by address, the
    randomly ordered list of ids with each entry's position in it, the two bucket tables and the
    per-entry reference counts. `Core` says that they agree. A bucket table maps an occupied
    (bucket, position) slot to an id; a slot that is absent is an empty one. */
module AddrBook {

  type Id = int
  type Slot = (nat, nat)

  datatype Service = Service(host: nat, port: nat)

  const NEW_BUCKET_COUNT: nat := 1024
  const TRIED_BUCKET_COUNT: nat := 256
  const BUCKET_SIZE: nat := 64
  const NEW_BUCKETS_PER_ADDRESS: nat := 8
  const TRIED_BUCKETS_PER_GROUP: nat := 8
  const NEW_BUCKETS_PER_SOURCE_GROUP: nat := 64

  /** The group of a host, the keyed hashes and the address classification, none of which change while running. */
  datatype Env = Env(
    group: nat -> nat, keyHash: Service -> nat, triedHash: (nat, nat) -> nat, groupsHash: (nat, nat) -> nat,
    newHash: (nat, nat) -> nat, positionHash: (Service, bool, nat) -> nat,
    isRoutable: Service -> bool, isValid: Service -> bool, network: Service -> nat, nullKey: bool)

  function Position(env: Env, s: Service, inNew: bool, bucket: nat): nat {
    env.positionHash(s, inNew, bucket) % BUCKET_SIZE
  }

  /** The one place in the tried table an address can have. */
  function TriedSlot(env: Env, s: Service): Slot {
    var choice := env.keyHash(s) % TRIED_BUCKETS_PER_GROUP;
    var bucket := env.triedHash(env.group(s.host), choice) % TRIED_BUCKET_COUNT;
    (bucket, Position(env, s, false, bucket))
  }

  /** The place in the new table for an address heard of from a source. */
  function NewSlot(env: Env, s: Service, source: nat): Slot {
    var choice := env.groupsHash(env.group(s.host), env.group(source)) % NEW_BUCKETS_PER_SOURCE_GROUP;
    var bucket := env.newHash(env.group(source), choice) % NEW_BUCKET_COUNT;
    (bucket, Position(env, s, true, bucket))
  }

  datatype Data = Data(
    service: Service, source: nat, time: int, services: bv64,
    lastTry: int, lastCountAttempt: int, lastSuccess: int, attempts: nat)

  datatype AddrInfo = AddrInfo(data: Data, refCount: int, inTried: bool, randomPos: int)

  datatype Book = Book(
    mapInfo: map<Id, AddrInfo>, mapAddr: map<Service, Id>, vRandom: seq<Id>,
    vvNew: map<Slot, Id>, vvTried: map<Slot, Id>, idCount: int, nNew: int, nTried: int)

  // ---- The columns of the entry table ----

  type Infos = map<Id, AddrInfo>

  ghost function DataOf(m: Infos): map<Id, Data> { map id | id in m :: m[id].data }
  ghost function RefsOf(m: Infos): map<Id, int> { map id | id in m :: m[id].refCount }
  ghost function TriedOf(m: Infos): map<Id, bool> { map id | id in m :: m[id].inTried }
  ghost function PosOf(m: Infos): map<Id, int> { map id | id in m :: m[id].randomPos }

  /** Replacing one entry replaces one value in each column. */
  lemma Columns(m: Infos, id: Id, info: AddrInfo)
    ensures DataOf(m[id := info]) == DataOf(m)[id := info.data]
    ensures RefsOf(m[id := info]) == RefsOf(m)[id := info.refCount]
    ensures TriedOf(m[id := info]) == TriedOf(m)[id := info.inTried]
    ensures PosOf(m[id := info]) == PosOf(m)[id := info.randomPos]
  {
  }

  lemma ColumnsWithout(m: Infos, id: Id)
    ensures DataOf(m - {id}) == DataOf(m) - {id}
    ensures RefsOf(m - {id}) == RefsOf(m) - {id}
    ensures TriedOf(m - {id}) == TriedOf(m) - {id}
    ensures PosOf(m - {id}) == PosOf(m) - {id}
  {
  }

  /** The same entries up to their place in the random order. */
  ghost predicate SameEntries(m: Infos, m': Infos) {
    DataOf(m) == DataOf(m') && RefsOf(m) == RefsOf(m') && TriedOf(m) == TriedOf(m')
  }

  lemma Same<V>(m: map<Id, V>, id: Id, v: V)
    requires id in m && m[id] == v
    ensures m[id := v] == m
  {
  }

  lemma Pick<T>(s: set<T>) returns (x: T)
    requires s != {}
    ensures x in s
  {
    x :| x in s;
  }

  lemma SomeId(ids: set<Id>)
    requires ids != {}
    ensures exists id :: id in ids
  {
    var id := Pick(ids);
  }

  // ---- Agreement of the structures ----

  ghost predicate IdsKnown(data: map<Id, Data>, idCount: int) {
    idCount >= 0 && forall id :: id in data ==> 0 <= id < idCount
  }

  ghost predicate AddrsAgree(data: map<Id, Data>, mapAddr: map<Service, Id>) {
    && (forall id :: id in data ==> data[id].service in mapAddr && mapAddr[data[id].service] == id)
    && (forall s :: s in mapAddr ==> mapAddr[s] in data && data[mapAddr[s]].service == s)
  }

  ghost predicate RandomAgrees(pos: map<Id, int>, vRandom: seq<Id>) {
    && (forall id :: id in pos ==> 0 <= pos[id] < |vRandom| && vRandom[pos[id]] == id)
    && (forall k :: 0 <= k < |vRandom| ==> vRandom[k] in pos && pos[vRandom[k]] == k)
  }

  ghost predicate TriedAgrees(env: Env, data: map<Id, Data>, tried: map<Id, bool>, vvTried: map<Slot, Id>)
    requires tried.Keys == data.Keys
  {
    && (forall slot :: slot in vvTried ==>
          vvTried[slot] in data && tried[vvTried[slot]] && TriedSlot(env, data[vvTried[slot]].service) == slot)
    && (forall id :: id in data && tried[id] ==> TriedAt(env, data[id], vvTried, id))
  }

  ghost predicate TriedAt(env: Env, d: Data, vvTried: map<Slot, Id>, id: Id) {
    TriedSlot(env, d.service) in vvTried && vvTried[TriedSlot(env, d.service)] == id
  }

  ghost function Refs(table: map<Slot, Id>, id: Id): set<Slot> {
    set slot | slot in table && table[slot] == id
  }

  /** Every occupied slot of the new table is one its address could have and holds an untried id. */
  ghost predicate NewAgrees(env: Env, data: map<Id, Data>, tried: map<Id, bool>, vvNew: map<Slot, Id>)
    requires tried.Keys == data.Keys
  {
    forall slot :: slot in vvNew ==>
      && slot.0 < NEW_BUCKET_COUNT && vvNew[slot] in data && !tried[vvNew[slot]]
      && slot.1 == Position(env, data[vvNew[slot]].service, true, slot.0)
  }

  ghost predicate RefsAgree(refs: map<Id, int>, vvNew: map<Slot, Id>) {
    forall id :: id in refs ==> refs[id] == |Refs(vvNew, id)| <= NEW_BUCKETS_PER_ADDRESS
  }

  ghost predicate TimesAgree(data: map<Id, Data>, tried: map<Id, bool>)
    requires tried.Keys == data.Keys
  {
    forall id :: id in data ==>
      data[id].lastTry >= 0 && data[id].lastSuccess >= 0 && (tried[id] ==> data[id].lastSuccess != 0)
  }

  ghost predicate Core(env: Env, b: Book) {
    var m := b.mapInfo;
    && IdsKnown(DataOf(m), b.idCount) && AddrsAgree(DataOf(m), b.mapAddr) && RandomAgrees(PosOf(m), b.vRandom)
    && TriedAgrees(env, DataOf(m), TriedOf(m), b.vvTried)
    && NewAgrees(env, DataOf(m), TriedOf(m), b.vvNew) && RefsAgree(RefsOf(m), b.vvNew)
    && TimesAgree(DataOf(m), TriedOf(m))
  }

  // ---- Elementary changes ----

  // Outside the conditions the code asserts, these leave the book alone.

  predicate CanSwap(b: Book, i: int, j: int) {
    0 <= i < |b.vRandom| && 0 <= j < |b.vRandom| && b.vRandom[i] in b.mapInfo && b.vRandom[j] in b.mapInfo
  }

  function Swapped(b: Book, i: int, j: int): Book {
    if i == j || !CanSwap(b, i, j) then b
    else
      var (id1, id2) := (b.vRandom[i], b.vRandom[j]);
      var m := b.mapInfo[id1 := b.mapInfo[id1].(randomPos := j)];
      b.(mapInfo := if id2 in m then m[id2 := m[id2].(randomPos := i)] else m, vRandom := b.vRandom[i := id2][j := id1])
  }

  function Created(b: Book, data: Data): Book {
    b.(mapInfo := b.mapInfo[b.idCount := AddrInfo(data, 0, false, |b.vRandom|)],
       mapAddr := b.mapAddr[data.service := b.idCount],
       vRandom := b.vRandom + [b.idCount],
       idCount := b.idCount + 1)
  }

  /** The last entry of the random order leaves. */
  function Popped(b: Book, id: Id): Book {
    if id !in b.mapInfo || b.vRandom == [] then b
    else b.(vRandom := b.vRandom[..|b.vRandom| - 1],
            mapAddr := b.mapAddr - {b.mapInfo[id].data.service},
            mapInfo := b.mapInfo - {id})
  }

  predicate CanDelete(b: Book, id: Id) {
    && id in b.mapInfo && !b.mapInfo[id].inTried && b.mapInfo[id].refCount == 0
    && CanSwap(b, b.mapInfo[id].randomPos, |b.vRandom| - 1)
  }

  function Deleted(b: Book, id: Id): Book {
    if CanDelete(b, id) then Popped(Swapped(b, b.mapInfo[id].randomPos, |b.vRandom| - 1), id).(nNew := b.nNew - 1) else b
  }

  function WithRef(b: Book, slot: Slot, id: Id): Book {
    if id !in b.mapInfo then b
    else b.(vvNew := b.vvNew[slot := id],
            mapInfo := b.mapInfo[id := b.mapInfo[id].(refCount := b.mapInfo[id].refCount + 1)])
  }

  function WithoutRef(b: Book, slot: Slot): Book {
    if slot !in b.vvNew || b.vvNew[slot] !in b.mapInfo then b
    else
      var id := b.vvNew[slot];
      b.(vvNew := b.vvNew - {slot},
         mapInfo := b.mapInfo[id := b.mapInfo[id].(refCount := b.mapInfo[id].refCount - 1)])
  }

  function WithTried(b: Book, slot: Slot, id: Id): Book {
    if id !in b.mapInfo then b
    else b.(vvTried := b.vvTried[slot := id], mapInfo := b.mapInfo[id := b.mapInfo[id].(inTried := true)])
  }

  function WithoutTried(b: Book, slot: Slot): Book {
    if slot !in b.vvTried || b.vvTried[slot] !in b.mapInfo then b
    else
      var id := b.vvTried[slot];
      b.(vvTried := b.vvTried - {slot}, mapInfo := b.mapInfo[id := b.mapInfo[id].(inTried := false)])
  }

  function Edited(b: Book, id: Id, data: Data): Book {
    if id !in b.mapInfo then b
    else b.(mapInfo := b.mapInfo[id := b.mapInfo[id].(data := data)])
  }

  /** Swapping moves entries in the random order only. */
  lemma SwappedEntries(b: Book, i: int, j: int)
    ensures var b' := Swapped(b, i, j);
            && b'.mapInfo.Keys == b.mapInfo.Keys && |b'.vRandom| == |b.vRandom|
            && b' == b.(mapInfo := b'.mapInfo, vRandom := b'.vRandom)
            && (forall k :: k in b.mapInfo ==> b'.mapInfo[k] == b.mapInfo[k].(randomPos := b'.mapInfo[k].randomPos))
  {
  }

  /** Deleting takes out one entry and touches nothing else but the random order. */
  lemma DeletedEntries(b: Book, id: Id)
    requires CanDelete(b, id)
    ensures var b' := Deleted(b, id);
            && b'.vvNew == b.vvNew && b'.vvTried == b.vvTried && b'.idCount == b.idCount
            && b'.nNew == b.nNew - 1 && b'.nTried == b.nTried && b'.mapInfo.Keys == b.mapInfo.Keys - {id}
            && (forall k :: k in b'.mapInfo ==> b'.mapInfo[k] == b.mapInfo[k].(randomPos := b'.mapInfo[k].randomPos))
  {
    var b1 := Swapped(b, b.mapInfo[id].randomPos, |b.vRandom| - 1);
    SwappedEntries(b, b.mapInfo[id].randomPos, |b.vRandom| - 1);
    hide Swapped;
    assert Deleted(b, id) == Popped(b1, id).(nNew := b.nNew - 1);
    hide Deleted, CanDelete, CanSwap;
  }

  // ---- Each elementary change keeps the agreement ----

  /** Changing one entry leaves alone the columns whose value there is the same. */
  lemma ColumnsKept(m: Infos, id: Id, info: AddrInfo)
    requires id in m
    ensures info.data == m[id].data ==> DataOf(m[id := info]) == DataOf(m)
    ensures info.refCount == m[id].refCount ==> RefsOf(m[id := info]) == RefsOf(m)
    ensures info.inTried == m[id].inTried ==> TriedOf(m[id := info]) == TriedOf(m)
    ensures info.randomPos == m[id].randomPos ==> PosOf(m[id := info]) == PosOf(m)
  {
    Columns(m, id, info);
    if info.data == m[id].data { Same(DataOf(m), id, info.data); }
    if info.refCount == m[id].refCount { Same(RefsOf(m), id, info.refCount); }
    if info.inTried == m[id].inTried { Same(TriedOf(m), id, info.inTried); }
    if info.randomPos == m[id].randomPos { Same(PosOf(m), id, info.randomPos); }
  }

  lemma SwappedCore(env: Env, b: Book, i: int, j: int)
    requires Core(env, b) && 0 <= i < |b.vRandom| && 0 <= j < |b.vRandom|
    ensures CanSwap(b, i, j) && Core(env, Swapped(b, i, j))
    ensures SameEntries(Swapped(b, i, j).mapInfo, b.mapInfo)
  {
    assert b.vRandom[i] in PosOf(b.mapInfo) && b.vRandom[j] in PosOf(b.mapInfo);
    if i != j {
      hide IdsKnown, AddrsAgree, TriedAgrees, NewAgrees, RefsAgree, TimesAgree;
      var (id1, id2) := (b.vRandom[i], b.vRandom[j]);
      var m := b.mapInfo[id1 := b.mapInfo[id1].(randomPos := j)];
      ColumnsKept(b.mapInfo, id1, b.mapInfo[id1].(randomPos := j));
      ColumnsKept(m, id2, m[id2].(randomPos := i));
      Columns(b.mapInfo, id1, b.mapInfo[id1].(randomPos := j));
      Columns(m, id2, m[id2].(randomPos := i));
      SwappedRandom(PosOf(b.mapInfo), b.vRandom, i, j);
    }
  }

  lemma SwappedRandom(pos: map<Id, int>, r: seq<Id>, i: int, j: int)
    requires RandomAgrees(pos, r) && 0 <= i < |r| && 0 <= j < |r| && i != j
    ensures RandomAgrees(pos[r[i] := j][r[j] := i], r[i := r[j]][j := r[i]])
  {
  }

  lemma CreatedCore(env: Env, b: Book, data: Data)
    requires Core(env, b) && data.service !in b.mapAddr && data.lastTry >= 0 && data.lastSuccess >= 0
    ensures Core(env, Created(b, data)) && DataOf(Created(b, data).mapInfo) == DataOf(b.mapInfo)[b.idCount := data]
  {
    var m, id := b.mapInfo, b.idCount;
    assert id !in DataOf(m);
    Columns(m, id, AddrInfo(data, 0, false, |b.vRandom|));
    CreatedRefs(env, DataOf(m), TriedOf(m), RefsOf(m), b.vvNew, id, data);
    CreatedTried(env, DataOf(m), TriedOf(m), b.vvTried, id, data);
    CreatedRandom(PosOf(m), b.vRandom, id);
  }

  lemma CreatedRefs(env: Env, data: map<Id, Data>, tried: map<Id, bool>, refs: map<Id, int>, vvNew: map<Slot, Id>, id: Id, d: Data)
    requires tried.Keys == data.Keys == refs.Keys && id !in data
    requires NewAgrees(env, data, tried, vvNew) && RefsAgree(refs, vvNew)
    ensures NewAgrees(env, data[id := d], tried[id := false], vvNew) && RefsAgree(refs[id := 0], vvNew)
  {
    assert Refs(vvNew, id) == {};
  }

  lemma CreatedTried(env: Env, data: map<Id, Data>, tried: map<Id, bool>, vvTried: map<Slot, Id>, id: Id, d: Data)
    requires tried.Keys == data.Keys && id !in data && TriedAgrees(env, data, tried, vvTried)
    ensures TriedAgrees(env, data[id := d], tried[id := false], vvTried)
  {
  }

  lemma CreatedRandom(pos: map<Id, int>, r: seq<Id>, id: Id)
    requires RandomAgrees(pos, r) && id !in pos
    ensures RandomAgrees(pos[id := |r|], r + [id])
  {
  }

  lemma PoppedCore(env: Env, b: Book, id: Id)
    requires Core(env, b) && id in b.mapInfo && b.mapInfo[id].randomPos == |b.vRandom| - 1
    requires !b.mapInfo[id].inTried && b.mapInfo[id].refCount == 0
    ensures b.vRandom != [] && Core(env, Popped(b, id))
  {
    var m := b.mapInfo;
    assert id in PosOf(m) && id in RefsOf(m);
    ColumnsWithout(m, id);
    PoppedAddrs(DataOf(m), b.mapAddr, id);
    PoppedRandom(PosOf(m), b.vRandom, id);
    PoppedTables(env, DataOf(m), TriedOf(m), RefsOf(m), b.vvNew, b.vvTried, id);
  }

  lemma PoppedAddrs(data: map<Id, Data>, mapAddr: map<Service, Id>, id: Id)
    requires AddrsAgree(data, mapAddr) && id in data
    ensures AddrsAgree(data - {id}, mapAddr - {data[id].service})
  {
  }

  lemma PoppedRandom(pos: map<Id, int>, r: seq<Id>, id: Id)
    requires RandomAgrees(pos, r) && id in pos && pos[id] == |r| - 1
    ensures RandomAgrees(pos - {id}, r[..|r| - 1])
  {
  }

  lemma PoppedTables(env: Env, data: map<Id, Data>, tried: map<Id, bool>, refs: map<Id, int>,
                     vvNew: map<Slot, Id>, vvTried: map<Slot, Id>, id: Id)
    requires tried.Keys == data.Keys == refs.Keys && id in data && !tried[id] && refs[id] == 0
    requires NewAgrees(env, data, tried, vvNew) && RefsAgree(refs, vvNew) && TriedAgrees(env, data, tried, vvTried)
    ensures NewAgrees(env, data - {id}, tried - {id}, vvNew) && RefsAgree(refs - {id}, vvNew)
    ensures TriedAgrees(env, data - {id}, tried - {id}, vvTried)
  {
    assert |Refs(vvNew, id)| == 0;
    forall slot | slot in vvNew
      ensures vvNew[slot] != id
    {
      assert slot !in Refs(vvNew, id);
    }
  }

  /** An entry that no bucket refers to can be taken out, through a swap to the end. */
  lemma DeletedCore(env: Env, b: Book, id: Id)
    requires Core(env, b) && id in b.mapInfo && !b.mapInfo[id].inTried && b.mapInfo[id].refCount == 0
    ensures CanDelete(b, id) && Core(env, Deleted(b, id))
    ensures SameEntries(Deleted(b, id).mapInfo, b.mapInfo - {id})
  {
    hide Core;
    var b1 := SwapToEnd(env, b, id);
    PoppedCore(env, b1, id);
    CoreCounts(env, Popped(b1, id), b.nNew - 1, b.nTried);
    SameWithout(b1.mapInfo, b.mapInfo, id);
  }

  /** The counters are not part of the agreement. */
  lemma CoreCounts(env: Env, b: Book, nNew: int, nTried: int)
    requires Core(env, b)
    ensures Core(env, b.(nNew := nNew, nTried := nTried))
  {
  }

  lemma SwapToEnd(env: Env, b: Book, id: Id) returns (b1: Book)
    requires Core(env, b) && id in b.mapInfo
    ensures CanSwap(b, b.mapInfo[id].randomPos, |b.vRandom| - 1)
    ensures b1 == Swapped(b, b.mapInfo[id].randomPos, |b.vRandom| - 1)
    ensures Core(env, b1) && SameEntries(b1.mapInfo, b.mapInfo)
    ensures id in b1.mapInfo && b1.mapInfo[id].randomPos == |b1.vRandom| - 1
    ensures b1.mapInfo[id].inTried == b.mapInfo[id].inTried && b1.mapInfo[id].refCount == b.mapInfo[id].refCount
  {
    hide Core;
    PosFacts(env, b, id);
    b1 := Swapped(b, b.mapInfo[id].randomPos, |b.vRandom| - 1);
    SwappedCore(env, b, b.mapInfo[id].randomPos, |b.vRandom| - 1);
    EntryKept(b1.mapInfo, b.mapInfo, id);
    LastFacts(env, b1);
  }

  lemma PosFacts(env: Env, b: Book, id: Id)
    requires Core(env, b) && id in b.mapInfo
    ensures 0 <= b.mapInfo[id].randomPos < |b.vRandom| && b.vRandom[b.mapInfo[id].randomPos] == id
  {
    assert id in PosOf(b.mapInfo);
  }

  lemma LastFacts(env: Env, b: Book)
    requires Core(env, b) && b.vRandom != []
    ensures var id := b.vRandom[|b.vRandom| - 1]; id in b.mapInfo && b.mapInfo[id].randomPos == |b.vRandom| - 1
  {
    assert b.vRandom[|b.vRandom| - 1] in PosOf(b.mapInfo);
  }

  lemma EntryKept(m: Infos, m': Infos, id: Id)
    requires SameEntries(m, m') && id in m'
    ensures id in m && m[id] == m'[id].(randomPos := m[id].randomPos)
  {
    assert id in DataOf(m);
    assert DataOf(m)[id] == DataOf(m')[id] && RefsOf(m)[id] == RefsOf(m')[id] && TriedOf(m)[id] == TriedOf(m')[id];
  }

  lemma SameWithout(m: Infos, m': Infos, id: Id)
    requires SameEntries(m, m')
    ensures SameEntries(m - {id}, m' - {id})
  {
    ColumnsWithout(m, id);
    ColumnsWithout(m', id);
  }

  // The reference counts when one slot is filled or emptied.

  lemma RefsWith(vvNew: map<Slot, Id>, slot: Slot, id: Id, other: Id)
    requires slot !in vvNew
    ensures |Refs(vvNew[slot := id], other)| == |Refs(vvNew, other)| + (if other == id then 1 else 0)
  {
    if other == id {
      assert Refs(vvNew[slot := id], other) == Refs(vvNew, other) + {slot};
    } else {
      assert Refs(vvNew[slot := id], other) == Refs(vvNew, other);
    }
  }

  lemma RefsWithout(vvNew: map<Slot, Id>, slot: Slot, other: Id)
    requires slot in vvNew
    ensures |Refs(vvNew - {slot}, other)| == |Refs(vvNew, other)| - (if other == vvNew[slot] then 1 else 0)
  {
    if other == vvNew[slot] {
      assert Refs(vvNew, other) == Refs(vvNew - {slot}, other) + {slot};
    } else {
      assert Refs(vvNew - {slot}, other) == Refs(vvNew, other);
    }
  }

  lemma WithRefAgrees(refs: map<Id, int>, vvNew: map<Slot, Id>, slot: Slot, id: Id)
    requires RefsAgree(refs, vvNew) && slot !in vvNew && id in refs && refs[id] < NEW_BUCKETS_PER_ADDRESS
    ensures RefsAgree(refs[id := refs[id] + 1], vvNew[slot := id])
  {
    forall other | other in refs
      ensures |Refs(vvNew[slot := id], other)| == |Refs(vvNew, other)| + (if other == id then 1 else 0)
    {
      RefsWith(vvNew, slot, id, other);
    }
  }

  lemma WithoutRefAgrees(refs: map<Id, int>, vvNew: map<Slot, Id>, slot: Slot)
    requires RefsAgree(refs, vvNew) && slot in vvNew && vvNew[slot] in refs
    ensures refs[vvNew[slot]] > 0
    ensures RefsAgree(refs[vvNew[slot] := refs[vvNew[slot]] - 1], vvNew - {slot})
  {
    forall other | other in refs
      ensures |Refs(vvNew - {slot}, other)| == |Refs(vvNew, other)| - (if other == vvNew[slot] then 1 else 0)
    {
      RefsWithout(vvNew, slot, other);
    }
    assert slot in Refs(vvNew, vvNew[slot]);
  }

  lemma WithRefCore(env: Env, b: Book, slot: Slot, id: Id)
    requires Core(env, b) && id in b.mapInfo && !b.mapInfo[id].inTried && slot !in b.vvNew
    requires b.mapInfo[id].refCount < NEW_BUCKETS_PER_ADDRESS
    requires slot.0 < NEW_BUCKET_COUNT && slot.1 == Position(env, b.mapInfo[id].data.service, true, slot.0)
    ensures Core(env, WithRef(b, slot, id)) && DataOf(WithRef(b, slot, id).mapInfo) == DataOf(b.mapInfo)
  {
    var m := b.mapInfo;
    var info := m[id].(refCount := m[id].refCount + 1);
    Columns(m, id, info);
    ColumnsKept(m, id, info);
    WithRefAgrees(RefsOf(m), b.vvNew, slot, id);
    WithRefPlaces(env, DataOf(m), TriedOf(m), b.vvNew, slot, id);
    hide IdsKnown, AddrsAgree, RandomAgrees, TriedAgrees, NewAgrees, RefsAgree, TimesAgree;
  }

  lemma WithRefPlaces(env: Env, data: map<Id, Data>, tried: map<Id, bool>, vvNew: map<Slot, Id>, slot: Slot, id: Id)
    requires tried.Keys == data.Keys && NewAgrees(env, data, tried, vvNew) && id in data && !tried[id]
    requires slot.0 < NEW_BUCKET_COUNT && slot.1 == Position(env, data[id].service, true, slot.0)
    ensures NewAgrees(env, data, tried, vvNew[slot := id])
  {
  }

  lemma WithoutRefCore(env: Env, b: Book, slot: Slot)
    requires Core(env, b) && slot in b.vvNew
    ensures b.vvNew[slot] in b.mapInfo && b.mapInfo[b.vvNew[slot]].refCount > 0 && !b.mapInfo[b.vvNew[slot]].inTried
    ensures Core(env, WithoutRef(b, slot)) && DataOf(WithoutRef(b, slot).mapInfo) == DataOf(b.mapInfo)
  {
    var m, id := b.mapInfo, b.vvNew[slot];
    assert id in DataOf(m);
    WithoutRefAgrees(RefsOf(m), b.vvNew, slot);
    var info := m[id].(refCount := m[id].refCount - 1);
    Columns(m, id, info);
    ColumnsKept(m, id, info);
  }

  lemma WithTriedCore(env: Env, b: Book, id: Id)
    requires Core(env, b) && id in b.mapInfo && !b.mapInfo[id].inTried && b.mapInfo[id].refCount == 0
    requires b.mapInfo[id].data.lastSuccess != 0 && TriedSlot(env, b.mapInfo[id].data.service) !in b.vvTried
    ensures var b' := WithTried(b, TriedSlot(env, b.mapInfo[id].data.service), id);
            Core(env, b') && DataOf(b'.mapInfo) == DataOf(b.mapInfo)
  {
    var m := b.mapInfo;
    var info := m[id].(inTried := true);
    Columns(m, id, info);
    ColumnsKept(m, id, info);
    assert id in RefsOf(m);
    UnreferencedTried(env, DataOf(m), TriedOf(m), RefsOf(m), b.vvNew, id);
    FilledTried(env, DataOf(m), TriedOf(m), b.vvTried, id);
  }

  lemma UnreferencedTried(env: Env, data: map<Id, Data>, tried: map<Id, bool>, refs: map<Id, int>, vvNew: map<Slot, Id>, id: Id)
    requires tried.Keys == data.Keys == refs.Keys && id in data && refs[id] == 0
    requires NewAgrees(env, data, tried, vvNew) && RefsAgree(refs, vvNew)
    ensures NewAgrees(env, data, tried[id := true], vvNew)
  {
    assert |Refs(vvNew, id)| == 0;
    forall slot | slot in vvNew
      ensures vvNew[slot] != id
    {
      assert slot !in Refs(vvNew, id);
    }
  }

  lemma FilledTried(env: Env, data: map<Id, Data>, tried: map<Id, bool>, vvTried: map<Slot, Id>, id: Id)
    requires tried.Keys == data.Keys && id in data && TriedSlot(env, data[id].service) !in vvTried
    requires TriedAgrees(env, data, tried, vvTried)
    ensures TriedAgrees(env, data, tried[id := true], vvTried[TriedSlot(env, data[id].service) := id])
  {
    var vvTried' := vvTried[TriedSlot(env, data[id].service) := id];
    forall other | other in data && other != id && tried[other]
      ensures TriedAt(env, data[other], vvTried', other)
    {
      assert TriedAt(env, data[other], vvTried, other);
    }
  }

  lemma WithoutTriedCore(env: Env, b: Book, slot: Slot)
    requires Core(env, b) && slot in b.vvTried
    ensures b.vvTried[slot] in b.mapInfo
    ensures b.mapInfo[b.vvTried[slot]].inTried && b.mapInfo[b.vvTried[slot]].refCount == 0
    ensures Core(env, WithoutTried(b, slot)) && DataOf(WithoutTried(b, slot).mapInfo) == DataOf(b.mapInfo)
  {
    var m, id := b.mapInfo, b.vvTried[slot];
    assert id in DataOf(m) && TriedOf(m)[id];
    var info := m[id].(inTried := false);
    Columns(m, id, info);
    ColumnsKept(m, id, info);
    assert id in RefsOf(m);
    TriedUnreferenced(env, DataOf(m), TriedOf(m), b.vvNew, id);
    EmptiedTried(env, DataOf(m), TriedOf(m), b.vvTried, slot);
  }

  lemma TriedUnreferenced(env: Env, data: map<Id, Data>, tried: map<Id, bool>, vvNew: map<Slot, Id>, id: Id)
    requires tried.Keys == data.Keys && id in data && tried[id] && NewAgrees(env, data, tried, vvNew)
    ensures Refs(vvNew, id) == {} && NewAgrees(env, data, tried[id := false], vvNew)
  {
  }

  lemma EmptiedTried(env: Env, data: map<Id, Data>, tried: map<Id, bool>, vvTried: map<Slot, Id>, slot: Slot)
    requires tried.Keys == data.Keys && slot in vvTried && TriedAgrees(env, data, tried, vvTried)
    ensures TriedAgrees(env, data, tried[vvTried[slot] := false], vvTried - {slot})
  {
    var id := vvTried[slot];
    forall other | other in data && other != id && tried[other]
      ensures TriedAt(env, data[other], vvTried - {slot}, other)
    {
      assert TriedAt(env, data[other], vvTried, other);
    }
    forall s | s in vvTried - {slot}
      ensures vvTried[s] != id
    {
      assert s in vvTried;
    }
  }

  lemma EditedCore(env: Env, b: Book, id: Id, data: Data)
    requires Core(env, b) && id in b.mapInfo && data.service == b.mapInfo[id].data.service
    requires data.lastTry >= 0 && data.lastSuccess >= 0 && (b.mapInfo[id].inTried ==> data.lastSuccess != 0)
    ensures Core(env, Edited(b, id, data)) && DataOf(Edited(b, id, data).mapInfo) == DataOf(b.mapInfo)[id := data]
  {
    var m := b.mapInfo;
    Columns(m, id, m[id].(data := data));
    ColumnsKept(m, id, m[id].(data := data));
    EditedTables(env, DataOf(m), TriedOf(m), b.vvNew, b.vvTried, b.mapAddr, id, data);
  }

  lemma EditedTables(env: Env, data: map<Id, Data>, tried: map<Id, bool>, vvNew: map<Slot, Id>, vvTried: map<Slot, Id>,
                     mapAddr: map<Service, Id>, id: Id, d: Data)
    requires tried.Keys == data.Keys && id in data && d.service == data[id].service
    requires TriedAgrees(env, data, tried, vvTried) && NewAgrees(env, data, tried, vvNew) && AddrsAgree(data, mapAddr)
    ensures TriedAgrees(env, data[id := d], tried, vvTried) && NewAgrees(env, data[id := d], tried, vvNew)
    ensures AddrsAgree(data[id := d], mapAddr)
  {
    forall other | other in data && tried[other]
      ensures TriedAt(env, data[id := d][other], vvTried, other)
    {
      assert TriedAt(env, data[other], vvTried, other);
    }
  }
}
