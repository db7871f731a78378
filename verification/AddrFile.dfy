/** The address manager's file: writing the tables out and rebuilding them. */
module AddrFile {
  import opened AddrBook
  import opened AddrMoves
  import opened AddrCheck

  /** What is kept of an entry; the times of the last attempts are not. */
  datatype Record = Record(
    service: Service, source: nat, time: int, services: bv64, lastSuccess: int, attempts: nat)

  /** The entries of the two tables, the references of each new bucket as indices into the first
      list, and a checksum of the map of networks that the bucketing depends on. */
  datatype File = File(news: seq<Record>, trieds: seq<Record>, buckets: seq<seq<int>>, asmap: nat)

  function ToRecord(d: Data): Record {
    Record(d.service, d.source, d.time, d.services, d.lastSuccess, d.attempts)
  }

  function FromRecord(r: Record): Data {
    Data(r.service, r.source, r.time, r.services, 0, 0, r.lastSuccess, r.attempts)
  }

  // ---- Writing ----

  predicate Belongs(info: AddrInfo, tried: bool) {
    if tried then info.inTried else info.refCount != 0
  }

  /** The ids of one table, in the order in which the entries are met. */
  ghost function Members(m: Infos, order: seq<Id>, tried: bool): seq<Id> {
    if order == [] then []
    else
      var before, id := Members(m, order[..|order| - 1], tried), order[|order| - 1];
      if id in m && Belongs(m[id], tried) then before + [id] else before
  }

  ghost predicate Lists(m: Infos, ids: seq<Id>, records: seq<Record>) {
    && |records| == |ids|
    && (forall k :: 0 <= k < |ids| ==> ids[k] in m && records[k] == ToRecord(m[ids[k]].data))
  }

  ghost predicate Indexed(index: map<Id, int>, ids: seq<Id>) {
    forall k :: 0 <= k < |ids| ==> ids[k] in index && index[ids[k]] == k
  }

  ghost predicate IsOrder(m: Infos, order: seq<Id>) { Distinct(order) && Elements(order) == m.Keys }

  function BucketList(vvNew: map<Slot, Id>, index: map<Id, int>, bucket: nat, n: nat): seq<int> {
    if n == 0 then []
    else
      var before, slot: Slot := BucketList(vvNew, index, bucket, n - 1), (bucket, n - 1);
      if slot in vvNew && vvNew[slot] in index then before + [index[vvNew[slot]]] else before
  }

  /** Entries come in an arbitrary order, that of a hash table. */
  method Serialize(env: Env, b: Book, asmap: nat, order: seq<Id>) returns (file: File, ghost index: map<Id, int>)
    requires Consistent(env, b) && IsOrder(b.mapInfo, order)
    ensures Lists(b.mapInfo, Members(b.mapInfo, order, false), file.news)
    ensures Lists(b.mapInfo, Members(b.mapInfo, order, true), file.trieds)
    ensures Indexed(index, Members(b.mapInfo, order, false))
    ensures |file.buckets| == NEW_BUCKET_COUNT && file.asmap == asmap
    ensures forall n: nat :: n < NEW_BUCKET_COUNT ==> file.buckets[n] == BucketList(b.vvNew, index, n, BUCKET_SIZE)
  {
    hide Consistent, IsOrder, Members, Lists, Indexed, BucketList;
    MembersCount(env, b, order);
    var news, unkIds := WriteEntries(b.mapInfo, order, false, b.nNew);
    var trieds, _ := WriteEntries(b.mapInfo, order, true, b.nTried);
    var buckets := WriteBuckets(b.vvNew, unkIds);
    file, index := File(news, trieds, buckets, asmap), unkIds;
  }

  method WriteEntries(m: Infos, order: seq<Id>, tried: bool, count: int) returns (records: seq<Record>, index: map<Id, int>)
    requires IsOrder(m, order) && |Members(m, order, tried)| == count
    ensures Lists(m, Members(m, order, tried), records) && Indexed(index, Members(m, order, tried))
  {
    records, index := [], map[];
    for n := 0 to |order|
      invariant Lists(m, Members(m, order[..n], tried), records)
      invariant Indexed(index, Members(m, order[..n], tried)) && index.Keys == Elements(order[..n])
    {
      var id := order[n];
      assert id in Elements(order);
      NextMember(m, order, n, tried);
      ghost var ids := Members(m, order[..n], tried);
      assert id !in index;
      index := index[id := |records|];
      if Belongs(m[id], tried) {
        assert |records| != count;
        records := records + [ToRecord(m[id].data)];
      }
    }
    assert order[..|order|] == order;
  }

  lemma NextMember(m: Infos, order: seq<Id>, n: nat, tried: bool)
    requires n < |order| && order[n] in m && Distinct(order)
    ensures var ids := Members(m, order[..n], tried);
            && Members(m, order[..n + 1], tried) == (if Belongs(m[order[n]], tried) then ids + [order[n]] else ids)
            && |Members(m, order[..n + 1], tried)| <= |Members(m, order, tried)|
            && Elements(order[..n + 1]) == Elements(order[..n]) + {order[n]}
            && order[n] !in Elements(order[..n])
            && (forall k :: 0 <= k < |ids| ==> ids[k] in Elements(order[..n]))
  {
    assert order[..n + 1][..n] == order[..n];
    MembersGrow(m, order, n + 1, tried);
    MembersAre(m, order[..n], tried);
  }

  lemma {:induction false} MembersGrow(m: Infos, order: seq<Id>, n: nat, tried: bool)
    requires n <= |order|
    ensures |Members(m, order[..n], tried)| <= |Members(m, order, tried)|
  {
    if n == |order| {
      assert order[..n] == order;
    } else {
      MembersGrow(m, order[..|order| - 1], n, tried);
      assert order[..|order| - 1][..n] == order[..n];
    }
  }

  lemma {:induction false} MembersAre(m: Infos, order: seq<Id>, tried: bool)
    requires Distinct(order)
    ensures var ids := Members(m, order, tried);
            && Distinct(ids)
            && (forall id :: id in ids <==> id in Elements(order) && id in m && Belongs(m[id], tried))
  {
    if order != [] {
      var init, id := order[..|order| - 1], order[|order| - 1];
      MembersAre(m, init, tried);
      assert Elements(order) == Elements(init) + {id};
      assert id !in Elements(init);
    }
  }

  lemma MembersCount(env: Env, b: Book, order: seq<Id>)
    requires Consistent(env, b) && IsOrder(b.mapInfo, order)
    ensures |Members(b.mapInfo, order, false)| == b.nNew && |Members(b.mapInfo, order, true)| == b.nTried
  {
    hide Consistent, Members, EntryOk, TriedAgrees, NewAgrees, RefsAgree;
    CheckedIff(env, b);
    var m := b.mapInfo;
    MembersAre(m, order, false);
    MembersAre(m, order, true);
    ElementsSize(Members(m, order, false));
    ElementsSize(Members(m, order, true));
    EntriesSplit(b);
    assert Elements(Members(m, order, false)) == NewCounts(m, m.Keys).Keys;
    assert Elements(Members(m, order, true)) == TriedIds(m, m.Keys);
  }

  lemma EntriesSplit(b: Book)
    requires forall id :: id in b.mapInfo ==> EntryOk(b, id)
    ensures forall id :: id in b.mapInfo ==> (Belongs(b.mapInfo[id], false) <==> !Belongs(b.mapInfo[id], true))
  {
  }

  method WriteBuckets(vvNew: map<Slot, Id>, index: map<Id, int>) returns (buckets: seq<seq<int>>)
    ensures |buckets| == NEW_BUCKET_COUNT
    ensures forall n: nat :: n < NEW_BUCKET_COUNT ==> buckets[n] == BucketList(vvNew, index, n, BUCKET_SIZE)
  {
    buckets := [];
    for n := 0 to NEW_BUCKET_COUNT
      invariant |buckets| == n
      invariant forall k: nat :: k < n ==> buckets[k] == BucketList(vvNew, index, k, BUCKET_SIZE)
    {
      var list := [];
      for i := 0 to BUCKET_SIZE
        invariant list == BucketList(vvNew, index, n, i)
      {
        if (n, i) in vvNew && vvNew[(n, i)] in index {
          list := list + [index[vvNew[(n, i)]]];
        }
      }
      buckets := buckets + [list];
    }
  }

  // ---- Reading ----

  datatype Result = Loaded(b: Book) | Refused

  const EMPTY := Book(map[], map[], [], map[], map[], 0, 0, 0)

  predicate Fits(file: File) {
    |file.news| <= NEW_BUCKET_COUNT * BUCKET_SIZE && |file.trieds| <= TRIED_BUCKET_COUNT * BUCKET_SIZE
  }

  /** The entries of the new table are created first and get the ids from 0 on. */
  ghost function WithNews(news: seq<Record>): Book {
    if news == [] then EMPTY else Created(WithNews(news[..|news| - 1]), FromRecord(news[|news| - 1]))
  }

  /** An entry whose place in the tried table is taken is lost. */
  function WithTriedEntry(env: Env, b: Book, r: Record): Book {
    var slot := TriedSlot(env, r.service);
    if slot in b.vvTried then b else WithTried(Created(b, FromRecord(r)), slot, b.idCount)
  }

  ghost function WithTrieds(env: Env, b: Book, trieds: seq<Record>): Book {
    if trieds == [] then b else WithTriedEntry(env, WithTrieds(env, b, trieds[..|trieds| - 1]), trieds[|trieds| - 1])
  }

  type Reference = (nat, int)

  /** The references with an index that exists. */
  ghost function References(buckets: seq<seq<int>>, count: int): seq<Reference> {
    if buckets == [] then []
    else References(buckets[..|buckets| - 1], count) + BucketReferences(|buckets| - 1, buckets[|buckets| - 1], count)
  }

  ghost function BucketReferences(bucket: nat, list: seq<int>, count: int): seq<Reference> {
    if list == [] then []
    else
      var before, k := BucketReferences(bucket, list[..|list| - 1], count), list[|list| - 1];
      if 0 <= k < count then before + [(bucket, k)] else before
  }

  /** A reference goes to its old place, or else to the entry's own bucket, or else is lost. */
  function WithReference(env: Env, b: Book, restore: bool, ref: Reference): Book {
    var (bucket, id) := ref;
    if id !in b.mapInfo || b.mapInfo[id].refCount >= NEW_BUCKETS_PER_ADDRESS then b
    else
      var data := b.mapInfo[id].data;
      var slot := (bucket, Position(env, data.service, true, bucket));
      var own := NewSlot(env, data.service, data.source);
      if restore && slot !in b.vvNew then WithRef(b, slot, id)
      else if own !in b.vvNew then WithRef(b, own, id)
      else b
  }

  ghost function WithReferences(env: Env, b: Book, restore: bool, refs: seq<Reference>): Book {
    if refs == [] then b
    else WithReference(env, WithReferences(env, b, restore, refs[..|refs| - 1]), restore, refs[|refs| - 1])
  }

  predicate Restores(file: File, asmap: nat) { |file.buckets| == NEW_BUCKET_COUNT && file.asmap == asmap }

  /** The tables before entries without a place are dropped. */
  ghost function Rebuilt(env: Env, asmap: nat, file: File): Book {
    var b := WithTrieds(env, WithNews(file.news), file.trieds);
    var b' := WithReferences(env, b, Restores(file, asmap), References(file.buckets, |file.news|));
    b'.(nNew := |file.news|, nTried := |b.vvTried|)
  }

  predicate HasPlaceNow(info: AddrInfo) { info.inTried || info.refCount != 0 }

  /** Without the entries that have no place; among those in `todo` they are still there. */
  ghost predicate Prunes(b: Book, b': Book, todo: set<Id>) {
    && b'.vvNew == b.vvNew && b'.vvTried == b.vvTried && b'.idCount == b.idCount
    && b'.nTried == b.nTried && b'.nNew - b.nNew == |b'.mapInfo| - |b.mapInfo|
    && (forall id :: id in b'.mapInfo <==> id in b.mapInfo && (id in todo || HasPlaceNow(b.mapInfo[id])))
    && (forall id :: id in b'.mapInfo ==> b'.mapInfo[id] == b.mapInfo[id].(randomPos := b'.mapInfo[id].randomPos))
  }

  /** An entry as it is listed, with no attempts on record. */
  ghost predicate IsListed(d: Data, r: Record) {
    && d.service == r.service && d.source == r.source && d.time == r.time && d.services == r.services
    && d.lastSuccess == r.lastSuccess && d.attempts == r.attempts && d.lastTry == 0 && d.lastCountAttempt == 0
  }

  /** Some bucket names an entry of the new table, by its number in the file. */
  ghost predicate Named(file: File, k: int) { exists n :: 0 <= n < |file.buckets| && k in file.buckets[n] }

  ghost predicate HeldByAnother(b: Book, slot: Slot, k: int) { slot in b.vvNew && b.vvNew[slot] != k }

  /** What becomes of the new table in a file. An entry that no bucket names is dropped. One that is named
      is dropped only if all its places are held by others: its own bucket's and, if the buckets of the file
      are still good, those of the buckets naming it. Every reference is at one of these places. */
  ghost predicate ReadsNew(env: Env, file: File, restore: bool, b: Book) {
    && (forall k :: 0 <= k < |file.news| && k in b.mapInfo ==>
          Named(file, k) && !b.mapInfo[k].inTried && IsListed(b.mapInfo[k].data, file.news[k]))
    && (forall k :: 0 <= k < |file.news| && k !in b.mapInfo && Named(file, k) ==>
          && HeldByAnother(b, NewSlot(env, file.news[k].service, file.news[k].source), k)
          && (restore ==> forall n :: 0 <= n < |file.buckets| && k in file.buckets[n] ==>
                HeldByAnother(b, (n, Position(env, file.news[k].service, true, n)), k)))
    && (forall slot: Slot :: slot in b.vvNew ==>
          && 0 <= b.vvNew[slot] < |file.news| && b.vvNew[slot] in b.mapInfo
          && var r := file.news[b.vvNew[slot]];
             || slot == NewSlot(env, r.service, r.source)
             || (restore && slot.0 < |file.buckets| && b.vvNew[slot] in file.buckets[slot.0]
                 && slot.1 == Position(env, r.service, true, slot.0)))
  }

  /** What becomes of the tried table in a file: the first entry listed for a slot gets it, the others are lost. */
  ghost predicate ReadsTried(env: Env, file: File, b: Book) {
    && (forall j :: 0 <= j < |file.trieds| ==> TriedSlot(env, file.trieds[j].service) in b.vvTried)
    && (forall slot :: slot in b.vvTried ==>
          && b.vvTried[slot] in b.mapInfo && b.mapInfo[b.vvTried[slot]].inTried
          && FirstListed(env, file.trieds, |file.trieds|, slot, b.mapInfo[b.vvTried[slot]].data))
  }

  /** An entry is the first of some for its slot. */
  ghost predicate FirstListed(env: Env, trieds: seq<Record>, n: nat, slot: Slot, d: Data)
    requires n <= |trieds|
  {
    exists j :: 0 <= j < n && FirstFor(env, trieds, j, slot) && IsListed(d, trieds[j])
  }

  ghost predicate FirstFor(env: Env, trieds: seq<Record>, j: nat, slot: Slot)
    requires j < |trieds|
  {
    TriedSlot(env, trieds[j].service) == slot && forall i :: 0 <= i < j ==> TriedSlot(env, trieds[i].service) != slot
  }

  /** Whatever the file says, it is refused or gives tables that agree; and nothing that was read
      is dropped if what was read agrees. */
  method Unserialize(env: Env, asmap: nat, file: File) returns (r: Result, ghost pruned: Book)
    ensures !Fits(file) ==> r == Refused
    ensures Fits(file) ==> Prunes(Rebuilt(env, asmap, file), pruned, {})
                           && r == if Consistent(env, pruned) && !env.nullKey then Loaded(pruned) else Refused
    ensures Fits(file) && Consistent(env, Rebuilt(env, asmap, file)) && !env.nullKey ==> r == Loaded(Rebuilt(env, asmap, file))
    ensures Fits(file) ==> ReadsNew(env, file, |file.buckets| == 1024 && file.asmap == asmap, pruned) && ReadsTried(env, file, pruned)
  {
    pruned := EMPTY;
    hide WithNews, WithTrieds, WithReferences, References, Checked, Loose, Settled, Core, Counted, Prunes, ReadsNew, ReadsTried;
    if !Fits(file) {
      r := Refused;
      return;
    }
    var b := ReadNews(file.news);
    LooseNews(file.news);
    ghost var b1 := b;
    var lost;
    b, lost := ReadTrieds(env, b, file.trieds);
    LooseTrieds(env, b1, file.trieds);
    NewsUntried(file.news);
    var nTried := |file.trieds| - lost;
    ghost var b2 := b;
    var refs := ReadReferences(file.buckets, |file.news|);
    b := PlaceReferences(env, b, Restores(file, asmap), refs);
    ReferencesBounded(file.buckets, |file.news|);
    LooseReferences(env, b2, Restores(file, asmap), refs);
    LooseCounts(b, |file.news|, nTried);
    b := b.(nNew := |file.news|, nTried := nTried);
    ghost var b3 := b;
    b := Prune(b);
    LooseMeans(b);
    CheckedIff(env, b);
    CheckedIff(env, b3);
    var err := CheckAddrman(env, b);
    r, pruned := if err == 0 then Loaded(b) else Refused, b;
    ReadsFile(env, asmap, file, b);
  }

  method ReadNews(news: seq<Record>) returns (b: Book)
    ensures b == WithNews(news)
  {
    b := EMPTY;
    for n := 0 to |news|
      invariant b == WithNews(news[..n])
    {
      assert news[..n + 1][..n] == news[..n];
      b := Created(b, FromRecord(news[n]));
    }
    assert news[..|news|] == news;
  }

  /** Counts the entries lost, too. */
  method ReadTrieds(env: Env, b0: Book, trieds: seq<Record>) returns (b: Book, lost: nat)
    ensures b == WithTrieds(env, b0, trieds) && lost == |trieds| - (|b.vvTried| - |b0.vvTried|)
  {
    b, lost := b0, 0;
    for n := 0 to |trieds|
      invariant b == WithTrieds(env, b0, trieds[..n]) && lost == n - (|b.vvTried| - |b0.vvTried|)
    {
      assert trieds[..n + 1][..n] == trieds[..n];
      var slot := TriedSlot(env, trieds[n].service);
      if slot in b.vvTried {
        lost := lost + 1;
      } else {
        b := WithTried(Created(b, FromRecord(trieds[n])), slot, b.idCount);
      }
    }
    assert trieds[..|trieds|] == trieds;
  }

  method ReadReferences(buckets: seq<seq<int>>, count: nat) returns (refs: seq<Reference>)
    ensures refs == References(buckets, count)
  {
    refs := [];
    for n := 0 to |buckets|
      invariant refs == References(buckets[..n], count)
    {
      ghost var before := refs;
      var list := buckets[n];
      for i := 0 to |list|
        invariant refs == before + BucketReferences(n, list[..i], count)
      {
        assert list[..i + 1][..i] == list[..i];
        if 0 <= list[i] < count {
          refs := refs + [(n, list[i])];
        }
      }
      assert list[..|list|] == list;
      assert buckets[..n + 1][..n] == buckets[..n];
    }
    assert buckets[..|buckets|] == buckets;
  }

  method PlaceReferences(env: Env, b0: Book, restore: bool, refs: seq<Reference>) returns (b: Book)
    ensures b == WithReferences(env, b0, restore, refs)
  {
    hide WithReference;
    b := b0;
    for n := 0 to |refs|
      invariant b == WithReferences(env, b0, restore, refs[..n])
    {
      assert refs[..n + 1][..n] == refs[..n];
      b := WithReference(env, b, restore, refs[n]);
    }
    assert refs[..|refs|] == refs;
  }

  /** Drops the entries that have no place. */
  method Prune(b0: Book) returns (b: Book)
    requires Loose(b0)
    ensures Loose(b) && Prunes(b0, b, {}) && (Settled(b0.mapInfo, {}) ==> b == b0)
  {
    hide Loose, Deleted, Prunes;
    b := b0;
    var todo := b.mapInfo.Keys;
    PrunesNone(b);
    while todo != {}
      invariant Loose(b) && todo <= b.mapInfo.Keys && Prunes(b0, b, todo) && (Settled(b0.mapInfo, {}) ==> b == b0)
      decreases todo
    {
      SomeId(todo);
      var id :| id in todo;
      PrunesOne(b0, b, todo, id);
      if !b.mapInfo[id].inTried && b.mapInfo[id].refCount == 0 {
        DeletedLoose(b, id);
        b := Deleted(b, id);
      }
      todo := todo - {id};
    }
  }

  lemma PrunesNone(b: Book)
    ensures Prunes(b, b, b.mapInfo.Keys)
  {
  }

  lemma PrunesOne(b0: Book, b: Book, todo: set<Id>, id: Id)
    requires Prunes(b0, b, todo) && id in todo && id in b.mapInfo
    ensures if HasPlaceNow(b.mapInfo[id]) then Prunes(b0, b, todo - {id})
            else CanDelete(b, id) ==> Prunes(b0, Deleted(b, id), todo - {id})
  {
    if !HasPlaceNow(b.mapInfo[id]) && CanDelete(b, id) {
      DeletedEntries(b, id);
      hide Deleted, CanDelete;
      assert Deleted(b, id).mapInfo.Keys == b.mapInfo.Keys - {id};
      KeyCount(b.mapInfo);
      KeyCount(Deleted(b, id).mapInfo);
    }
  }

  lemma KeyCount(m: Infos)
    ensures |m| == |m.Keys|
  {
  }

  // ---- What is read from any file ----

  /** The entries of both tables in the file, as they are before references are placed. */
  ghost predicate Listed(news: seq<Record>, b: Book) {
    && b.idCount >= |news|
    && (forall k :: 0 <= k < |news| ==> k in b.mapInfo && !b.mapInfo[k].inTried && IsListed(b.mapInfo[k].data, news[k]))
    && (forall id :: id in b.mapInfo ==> 0 <= id < b.idCount)
    && (forall id :: id in b.mapInfo && id >= |news| ==> b.mapInfo[id].inTried)
  }

  lemma {:induction false} ListedNews(news: seq<Record>)
    ensures var b := WithNews(news);
            Listed(news, b) && b.idCount == |news| && b.vvNew == map[] && b.vvTried == map[]
            && forall id :: id in b.mapInfo ==> b.mapInfo[id].refCount == 0
  {
    if news != [] {
      ListedNews(news[..|news| - 1]);
    }
  }

  /** The first `n` of the tried entries have been read. */
  ghost predicate TriedSoFar(env: Env, trieds: seq<Record>, n: nat, b: Book)
    requires n <= |trieds|
  {
    && (forall j :: 0 <= j < n ==> TriedSlot(env, trieds[j].service) in b.vvTried)
    && (forall slot :: slot in b.vvTried ==>
          && b.vvTried[slot] in b.mapInfo && b.mapInfo[b.vvTried[slot]].inTried
          && FirstListed(env, trieds, n, slot, b.mapInfo[b.vvTried[slot]].data))
  }

  lemma {:induction false} ListedTrieds(env: Env, news: seq<Record>, trieds: seq<Record>, n: nat)
    requires n <= |trieds|
    ensures var b := WithTrieds(env, WithNews(news), trieds[..n]);
            Listed(news, b) && TriedSoFar(env, trieds, n, b) && b.vvNew == map[]
            && forall id :: id in b.mapInfo ==> b.mapInfo[id].refCount == 0
  {
    hide TriedSlot, WithNews;
    if n == 0 {
      ListedNews(news);
    } else {
      ListedTrieds(env, news, trieds, n - 1);
      assert trieds[..n][..n - 1] == trieds[..n - 1];
      var b := WithTrieds(env, WithNews(news), trieds[..n - 1]);
      TriedOneMore(env, news, trieds, n - 1, b);
    }
  }

  lemma TriedOneMore(env: Env, news: seq<Record>, trieds: seq<Record>, n: nat, b: Book)
    requires n < |trieds| && Listed(news, b) && TriedSoFar(env, trieds, n, b)
    ensures var b' := WithTriedEntry(env, b, trieds[n]);
            && Listed(news, b') && TriedSoFar(env, trieds, n + 1, b') && b'.vvNew == b.vvNew
            && (forall id :: id in b'.mapInfo ==> b'.mapInfo[id].refCount == if id in b.mapInfo then b.mapInfo[id].refCount else 0)
  {
    hide TriedSlot, FirstListed, IsListed;
    var (b', slot) := (WithTriedEntry(env, b, trieds[n]), TriedSlot(env, trieds[n].service));
    ListedNow(trieds[n]);
    FirstMore(env, trieds, n);
    assert slot !in b.vvTried ==> forall j :: 0 <= j < n ==> TriedSlot(env, trieds[j].service) != slot;
  }

  lemma ListedNow(r: Record)
    ensures IsListed(FromRecord(r), r)
  {
  }

  lemma FirstMore(env: Env, trieds: seq<Record>, n: nat)
    requires n < |trieds|
    ensures forall slot, d :: FirstListed(env, trieds, n, slot, d) ==> FirstListed(env, trieds, n + 1, slot, d)
    ensures forall d :: IsListed(d, trieds[n]) && (forall j :: 0 <= j < n ==> TriedSlot(env, trieds[j].service) != TriedSlot(env, trieds[n].service)) ==>
              FirstListed(env, trieds, n + 1, TriedSlot(env, trieds[n].service), d)
  {
    hide TriedSlot, IsListed;
    forall d | IsListed(d, trieds[n]) && (forall j :: 0 <= j < n ==> TriedSlot(env, trieds[j].service) != TriedSlot(env, trieds[n].service))
      ensures FirstListed(env, trieds, n + 1, TriedSlot(env, trieds[n].service), d)
    {
      assert FirstFor(env, trieds, n, TriedSlot(env, trieds[n].service));
    }
  }

  /** The places a reference may go to. */
  ghost predicate MayHold(env: Env, news: seq<Record>, restore: bool, refs: seq<Reference>, slot: Slot, k: int)
    requires 0 <= k < |news|
  {
    exists ref :: ref in refs && ref.1 == k &&
      (slot == NewSlot(env, news[k].service, news[k].source) || (restore && slot == (ref.0, Position(env, news[k].service, true, ref.0))))
  }

  /** Some references have been placed. */
  ghost predicate RefsSoFar(env: Env, news: seq<Record>, restore: bool, refs: seq<Reference>, b: Book) {
    && (forall k :: 0 <= k < |news| && k in b.mapInfo && b.mapInfo[k].refCount > 0 ==> Refers(refs, k))
    && (forall slot :: slot in b.vvNew ==>
          && 0 <= b.vvNew[slot] < |news| && b.vvNew[slot] in b.mapInfo && b.mapInfo[b.vvNew[slot]].refCount > 0
          && MayHold(env, news, restore, refs, slot, b.vvNew[slot]))
    && (forall ref :: ref in refs ==> NoRoom(env, news, restore, b, ref))
    && (forall id :: id in b.mapInfo ==> b.mapInfo[id].refCount >= 0)
  }

  ghost predicate Refers(refs: seq<Reference>, k: int) { exists ref :: ref in refs && ref.1 == k }

  /** An entry without references had no place for this one. */
  ghost predicate NoRoom(env: Env, news: seq<Record>, restore: bool, b: Book, ref: Reference) {
    0 <= ref.1 < |news| && ref.1 in b.mapInfo && b.mapInfo[ref.1].refCount <= 0 ==>
      && NewSlot(env, news[ref.1].service, news[ref.1].source) in b.vvNew
      && (restore ==> (ref.0, Position(env, news[ref.1].service, true, ref.0)) in b.vvNew)
  }

  lemma {:induction false} ReferencesSoFar(env: Env, news: seq<Record>, trieds: seq<Record>, b: Book, restore: bool, refs: seq<Reference>)
    requires Listed(news, b) && TriedSoFar(env, trieds, |trieds|, b) && b.vvNew == map[]
    requires forall id :: id in b.mapInfo ==> b.mapInfo[id].refCount == 0
    requires forall ref :: ref in refs ==> 0 <= ref.1 < |news|
    ensures var b' := WithReferences(env, b, restore, refs);
            Listed(news, b') && TriedSoFar(env, trieds, |trieds|, b') && RefsSoFar(env, news, restore, refs, b')
  {
    hide Listed, TriedSoFar, TriedSlot, NewSlot, Position;
    if refs != [] {
      var init, ref := refs[..|refs| - 1], refs[|refs| - 1];
      assert refs == init + [ref];
      ReferencesSoFar(env, news, trieds, b, restore, init);
      ReferenceMore(env, news, trieds, WithReferences(env, b, restore, init), restore, init, ref);
    }
  }

  lemma ReferenceMore(env: Env, news: seq<Record>, trieds: seq<Record>, b: Book, restore: bool, refs: seq<Reference>, ref: Reference)
    requires Listed(news, b) && TriedSoFar(env, trieds, |trieds|, b) && RefsSoFar(env, news, restore, refs, b) && 0 <= ref.1 < |news|
    ensures var b' := WithReference(env, b, restore, ref);
            Listed(news, b') && TriedSoFar(env, trieds, |trieds|, b') && RefsSoFar(env, news, restore, refs + [ref], b')
  {
    hide Listed, TriedSoFar, RefsSoFar, NewSlot, Position, MayHold;
    var (slot, own) := ((ref.0, Position(env, news[ref.1].service, true, ref.0)), NewSlot(env, news[ref.1].service, news[ref.1].source));
    var b' := WithReference(env, b, restore, ref);
    ListedAt(news, b, ref.1);
    assert b' == b || b' == WithRef(b, own, ref.1) || (restore && b' == WithRef(b, slot, ref.1));
    assert b' == b ==> b.mapInfo[ref.1].refCount >= NEW_BUCKETS_PER_ADDRESS || (own in b.vvNew && (restore ==> slot in b.vvNew));
    WithRefKeeps(env, news, trieds, b, own, ref.1);
    WithRefKeeps(env, news, trieds, b, slot, ref.1);
    hide WithReference, WithRef;
    MayHoldMore(env, news, restore, refs, ref);
    RefsMore(env, news, restore, refs, ref, b, b', slot, own);
  }

  lemma ListedAt(news: seq<Record>, b: Book, k: int)
    requires Listed(news, b) && 0 <= k < |news|
    ensures k in b.mapInfo && b.mapInfo[k].data.service == news[k].service && b.mapInfo[k].data.source == news[k].source
  {
  }

  lemma WithRefKeeps(env: Env, news: seq<Record>, trieds: seq<Record>, b: Book, slot: Slot, k: int)
    requires Listed(news, b) && TriedSoFar(env, trieds, |trieds|, b)
    ensures Listed(news, WithRef(b, slot, k)) && TriedSoFar(env, trieds, |trieds|, WithRef(b, slot, k))
  {
    hide TriedSoFar, IsListed;
    TriedKept(env, trieds, b, WithRef(b, slot, k));
  }

  lemma MayHoldMore(env: Env, news: seq<Record>, restore: bool, refs: seq<Reference>, ref: Reference)
    requires 0 <= ref.1 < |news|
    ensures forall slot, k :: 0 <= k < |news| && MayHold(env, news, restore, refs, slot, k) ==> MayHold(env, news, restore, refs + [ref], slot, k)
    ensures MayHold(env, news, restore, refs + [ref], NewSlot(env, news[ref.1].service, news[ref.1].source), ref.1)
    ensures restore ==> MayHold(env, news, restore, refs + [ref], (ref.0, Position(env, news[ref.1].service, true, ref.0)), ref.1)
  {
    hide NewSlot, Position;
    assert ref in refs + [ref];
    assert forall r :: r in refs ==> r in refs + [ref];
  }

  lemma RefsMore(env: Env, news: seq<Record>, restore: bool, refs: seq<Reference>, ref: Reference, b: Book, b': Book, slot: Slot, own: Slot)
    requires RefsSoFar(env, news, restore, refs, b) && 0 <= ref.1 < |news| && ref.1 in b.mapInfo
    requires own == NewSlot(env, news[ref.1].service, news[ref.1].source)
    requires slot == (ref.0, Position(env, news[ref.1].service, true, ref.0))
    requires b' == b || b' == WithRef(b, own, ref.1) || (restore && b' == WithRef(b, slot, ref.1))
    requires b' == b ==> b.mapInfo[ref.1].refCount >= NEW_BUCKETS_PER_ADDRESS || (own in b.vvNew && (restore ==> slot in b.vvNew))
    requires forall s, k :: 0 <= k < |news| && MayHold(env, news, restore, refs, s, k) ==> MayHold(env, news, restore, refs + [ref], s, k)
    requires MayHold(env, news, restore, refs + [ref], own, ref.1)
    requires restore ==> MayHold(env, news, restore, refs + [ref], slot, ref.1)
    ensures RefsSoFar(env, news, restore, refs + [ref], b')
  {
    hide NewSlot, Position, MayHold, Refers, NoRoom;
    RefersMore(refs, ref);
    forall r | r in refs + [ref]
      ensures NoRoom(env, news, restore, b', r)
    {
      if r in refs {
        NoRoomStill(env, news, restore, b, b', r);
      } else {
        NoRoomFor(env, news, restore, b', ref);
      }
    }
  }

  lemma RefersMore(refs: seq<Reference>, ref: Reference)
    ensures forall k :: Refers(refs, k) ==> Refers(refs + [ref], k)
    ensures Refers(refs + [ref], ref.1)
  {
    assert ref in refs + [ref];
    assert forall r :: r in refs ==> r in refs + [ref];
  }

  lemma NoRoomStill(env: Env, news: seq<Record>, restore: bool, b: Book, b': Book, ref: Reference)
    requires NoRoom(env, news, restore, b, ref) && forall slot :: slot in b.vvNew ==> slot in b'.vvNew
    requires ref.1 in b'.mapInfo ==> ref.1 in b.mapInfo && b.mapInfo[ref.1].refCount <= b'.mapInfo[ref.1].refCount
    ensures NoRoom(env, news, restore, b', ref)
  {
    hide NewSlot, Position;
  }

  lemma NoRoomFor(env: Env, news: seq<Record>, restore: bool, b: Book, ref: Reference)
    requires 0 <= ref.1 < |news| && ref.1 in b.mapInfo
    requires b.mapInfo[ref.1].refCount > 0 ||
             (&& NewSlot(env, news[ref.1].service, news[ref.1].source) in b.vvNew
              && (restore ==> (ref.0, Position(env, news[ref.1].service, true, ref.0)) in b.vvNew))
    ensures NoRoom(env, news, restore, b, ref)
  {
  }

  lemma TriedKept(env: Env, trieds: seq<Record>, b: Book, b': Book)
    requires TriedSoFar(env, trieds, |trieds|, b) && b'.vvTried == b.vvTried
    requires forall id :: id in b.mapInfo && b.mapInfo[id].inTried ==> id in b'.mapInfo && b'.mapInfo[id].inTried && b'.mapInfo[id].data == b.mapInfo[id].data
    ensures TriedSoFar(env, trieds, |trieds|, b')
  {
    hide FirstListed, TriedSlot;
    forall slot | slot in b'.vvTried
      ensures b'.vvTried[slot] in b'.mapInfo && b'.mapInfo[b'.vvTried[slot]].inTried
      ensures FirstListed(env, trieds, |trieds|, slot, b'.mapInfo[b'.vvTried[slot]].data)
    {
      var id := b.vvTried[slot];
      assert slot in b.vvTried && id in b.mapInfo && b.mapInfo[id].inTried;
      assert id in b'.mapInfo && b'.mapInfo[id].inTried && b'.mapInfo[id].data == b.mapInfo[id].data;
    }
  }

  /** The references are what the lists of the buckets say. */
  lemma {:induction false} ReferencesAre(buckets: seq<seq<int>>, count: int, n: nat, k: int)
    ensures (n, k) in References(buckets, count) <==> n < |buckets| && k in buckets[n] && 0 <= k < count
  {
    if buckets != [] {
      var init, last := buckets[..|buckets| - 1], buckets[|buckets| - 1];
      ReferencesAre(init, count, n, k);
      BucketReferencesAre(|init|, last, count, n, k);
    }
  }

  lemma {:induction false} BucketReferencesAre(bucket: nat, list: seq<int>, count: int, n: nat, k: int)
    ensures (n, k) in BucketReferences(bucket, list, count) <==> n == bucket && k in list && 0 <= k < count
  {
    if list != [] {
      BucketReferencesAre(bucket, list[..|list| - 1], count, n, k);
      assert list == list[..|list| - 1] + [list[|list| - 1]];
    }
  }

  lemma ReadsFile(env: Env, asmap: nat, file: File, b: Book)
    requires Prunes(Rebuilt(env, asmap, file), b, {})
    ensures ReadsNew(env, file, |file.buckets| == 1024 && file.asmap == asmap, b) && ReadsTried(env, file, b)
  {
    hide Listed, TriedSoFar, RefsSoFar, WithNews, WithTrieds, WithReferences, References, ReadsNew, ReadsTried, Prunes;
    var refs := References(file.buckets, |file.news|);
    var restore := |file.buckets| == 1024 && file.asmap == asmap;
    forall n: nat, k: int
      ensures (n, k) in refs <==> n < |file.buckets| && k in file.buckets[n] && 0 <= k < |file.news|
    {
      ReferencesAre(file.buckets, |file.news|, n, k);
    }
    var b1 := WithTrieds(env, WithNews(file.news), file.trieds);
    assert file.trieds[..|file.trieds|] == file.trieds;
    ListedTrieds(env, file.news, file.trieds, |file.trieds|);
    assert forall ref :: ref in refs ==> (ref.0, ref.1) in refs;
    ReferencesSoFar(env, file.news, file.trieds, b1, restore, refs);
    var b2 := WithReferences(env, b1, restore, refs);
    ReadsNewOf(env, file, restore, refs, b2, Rebuilt(env, asmap, file), b);
    ReadsTriedOf(env, file, b2, Rebuilt(env, asmap, file), b);
  }

  lemma ReadsTriedOf(env: Env, file: File, b2: Book, b3: Book, b: Book)
    requires TriedSoFar(env, file.trieds, |file.trieds|, b2) && b3 == b2.(nNew := b3.nNew, nTried := b3.nTried) && Prunes(b3, b, {})
    ensures ReadsTried(env, file, b)
  {
    hide FirstListed, TriedSlot;
    TriedKept(env, file.trieds, b2, b);
  }

  lemma ReadsNewOf(env: Env, file: File, restore: bool, refs: seq<Reference>, b2: Book, b3: Book, b: Book)
    requires Listed(file.news, b2) && RefsSoFar(env, file.news, restore, refs, b2)
    requires b3 == b2.(nNew := b3.nNew, nTried := b3.nTried) && Prunes(b3, b, {})
    requires forall n: nat, k: int :: (n, k) in refs <==> n < |file.buckets| && k in file.buckets[n] && 0 <= k < |file.news|
    ensures ReadsNew(env, file, restore, b)
  {
    hide NewSlot, Position, MayHold, Refers, NoRoom, Named, HeldByAnother, IsListed;
    forall k | 0 <= k < |file.news| && k in b.mapInfo
      ensures Named(file, k) && !b.mapInfo[k].inTried && IsListed(b.mapInfo[k].data, file.news[k])
    {
      assert b2.mapInfo[k].refCount > 0;
      RefersNames(file, refs, k);
    }
    forall k, n | 0 <= k < |file.news| && k !in b.mapInfo && 0 <= n < |file.buckets| && k in file.buckets[n]
      ensures HeldByAnother(b, NewSlot(env, file.news[k].service, file.news[k].source), k)
      ensures restore ==> HeldByAnother(b, (n, Position(env, file.news[k].service, true, n)), k)
    {
      assert (n, k) in refs && NoRoom(env, file.news, restore, b2, (n, k));
      HeldThen(env, file.news, restore, b2, b, n, k);
    }
    forall k | 0 <= k < |file.news| && k !in b.mapInfo && Named(file, k)
      ensures HeldByAnother(b, NewSlot(env, file.news[k].service, file.news[k].source), k)
    {
      var n := NamedBy(file, k);
    }
    forall slot: Slot | slot in b.vvNew
      ensures 0 <= b.vvNew[slot] < |file.news| && b.vvNew[slot] in b.mapInfo
      ensures var r := file.news[b.vvNew[slot]];
              || slot == NewSlot(env, r.service, r.source)
              || (restore && slot.0 < |file.buckets| && b.vvNew[slot] in file.buckets[slot.0] && slot.1 == Position(env, r.service, true, slot.0))
    {
      HoldsThere(env, file, restore, refs, slot, b2.vvNew[slot]);
    }
  }

  lemma RefersNames(file: File, refs: seq<Reference>, k: int)
    requires Refers(refs, k)
    requires forall n: nat, k: int :: (n, k) in refs <==> n < |file.buckets| && k in file.buckets[n] && 0 <= k < |file.news|
    ensures Named(file, k)
  {
    var ref :| ref in refs && ref.1 == k;
    assert (ref.0, ref.1) in refs;
  }

  lemma NamedBy(file: File, k: int) returns (n: nat)
    requires Named(file, k)
    ensures n < |file.buckets| && k in file.buckets[n]
  {
    n :| 0 <= n < |file.buckets| && k in file.buckets[n];
  }

  lemma HeldThen(env: Env, news: seq<Record>, restore: bool, b2: Book, b: Book, n: nat, k: int)
    requires 0 <= k < |news| && k in b2.mapInfo && b2.mapInfo[k].refCount <= 0 && NoRoom(env, news, restore, b2, (n, k))
    requires b.vvNew == b2.vvNew && forall slot :: slot in b2.vvNew ==> b2.vvNew[slot] in b2.mapInfo && b2.mapInfo[b2.vvNew[slot]].refCount > 0
    ensures HeldByAnother(b, NewSlot(env, news[k].service, news[k].source), k)
    ensures restore ==> HeldByAnother(b, (n, Position(env, news[k].service, true, n)), k)
  {
    hide NewSlot, Position;
  }

  lemma HoldsThere(env: Env, file: File, restore: bool, refs: seq<Reference>, slot: Slot, k: int)
    requires 0 <= k < |file.news| && MayHold(env, file.news, restore, refs, slot, k)
    requires forall n: nat, k: int :: (n, k) in refs <==> n < |file.buckets| && k in file.buckets[n] && 0 <= k < |file.news|
    ensures var r := file.news[k];
            || slot == NewSlot(env, r.service, r.source)
            || (restore && slot.0 < |file.buckets| && k in file.buckets[slot.0] && slot.1 == Position(env, r.service, true, slot.0))
  {
    hide NewSlot, Position;
    var ref :| ref in refs && ref.1 == k &&
      (slot == NewSlot(env, file.news[k].service, file.news[k].source) || (restore && slot == (ref.0, Position(env, file.news[k].service, true, ref.0))));
    assert (ref.0, ref.1) in refs;
  }

  // ---- What holds of any file ----

  ghost predicate Loose(b: Book) {
    && IdsKnown(DataOf(b.mapInfo), b.idCount) && AddrsBack(DataOf(b.mapInfo), b.mapAddr)
    && RandomAgrees(PosOf(b.mapInfo), b.vRandom) && Shaped(b)
  }

  lemma LooseMeans(b: Book)
    requires Loose(b)
    ensures IdsKnown(DataOf(b.mapInfo), b.idCount) && AddrsBack(DataOf(b.mapInfo), b.mapAddr) && Shaped(b)
  {
  }

  lemma LooseCounts(b: Book, nNew: int, nTried: int)
    requires Loose(b)
    ensures Loose(b.(nNew := nNew, nTried := nTried))
  {
  }

  lemma CreatedLoose(b: Book, data: Data)
    requires Loose(b)
    ensures Loose(Created(b, data)) && b.idCount in Created(b, data).mapInfo
  {
    hide RandomAgrees;
    assert b.idCount !in DataOf(b.mapInfo);
    Columns(b.mapInfo, b.idCount, AddrInfo(data, 0, false, |b.vRandom|));
    assert b.idCount !in PosOf(b.mapInfo);
    CreatedRandom(PosOf(b.mapInfo), b.vRandom, b.idCount);
  }

  lemma {:induction false} LooseNews(news: seq<Record>)
    ensures Loose(WithNews(news))
  {
    hide Loose, Created;
    if news == [] {
      LooseEmpty();
    } else {
      LooseNews(news[..|news| - 1]);
      CreatedLoose(WithNews(news[..|news| - 1]), FromRecord(news[|news| - 1]));
    }
  }

  lemma {:induction false} NewsUntried(news: seq<Record>)
    ensures WithNews(news).vvTried == map[]
  {
    if news != [] {
      NewsUntried(news[..|news| - 1]);
    }
  }

  lemma LooseEmpty()
    ensures Loose(EMPTY)
  {
  }

  lemma WithTriedLoose(env: Env, b: Book, s: Service, id: Id)
    requires Loose(b)
    ensures Loose(WithTried(b, TriedSlot(env, s), id))
  {
    if id in b.mapInfo {
      ColumnsKept(b.mapInfo, id, b.mapInfo[id].(inTried := true));
    }
  }

  lemma {:induction false} LooseTrieds(env: Env, b: Book, trieds: seq<Record>)
    requires Loose(b)
    ensures Loose(WithTrieds(env, b, trieds))
  {
    hide Loose, Created, WithTried;
    if trieds != [] {
      var r := trieds[|trieds| - 1];
      var b' := WithTrieds(env, b, trieds[..|trieds| - 1]);
      LooseTrieds(env, b, trieds[..|trieds| - 1]);
      CreatedLoose(b', FromRecord(r));
      WithTriedLoose(env, Created(b', FromRecord(r)), r.service, b'.idCount);
    }
  }

  lemma WithRefLoose(b: Book, slot: Slot, id: Id)
    requires Loose(b) && slot.0 < NEW_BUCKET_COUNT && slot.1 < BUCKET_SIZE
    ensures Loose(WithRef(b, slot, id))
  {
    if id in b.mapInfo {
      ColumnsKept(b.mapInfo, id, b.mapInfo[id].(refCount := b.mapInfo[id].refCount + 1));
    }
  }

  lemma {:induction false} LooseReferences(env: Env, b: Book, restore: bool, refs: seq<Reference>)
    requires Loose(b) && (restore ==> forall k :: 0 <= k < |refs| ==> refs[k].0 < NEW_BUCKET_COUNT)
    ensures Loose(WithReferences(env, b, restore, refs))
  {
    hide Loose, WithRef;
    if refs != [] {
      LooseReferences(env, b, restore, refs[..|refs| - 1]);
      var b', ref := WithReferences(env, b, restore, refs[..|refs| - 1]), refs[|refs| - 1];
      if ref.1 in b'.mapInfo {
        var data := b'.mapInfo[ref.1].data;
        if restore {
          WithRefLoose(b', (ref.0, Position(env, data.service, true, ref.0)), ref.1);
        }
        WithRefLoose(b', NewSlot(env, data.service, data.source), ref.1);
      }
    }
  }

  lemma {:induction false} ReferencesBounded(buckets: seq<seq<int>>, count: int)
    ensures forall k :: 0 <= k < |References(buckets, count)| ==> References(buckets, count)[k].0 < |buckets|
  {
    if buckets != [] {
      ReferencesBounded(buckets[..|buckets| - 1], count);
      BucketBounded(|buckets| - 1, buckets[|buckets| - 1], count);
    }
  }

  lemma {:induction false} BucketBounded(bucket: nat, list: seq<int>, count: int)
    ensures forall k :: 0 <= k < |BucketReferences(bucket, list, count)| ==> BucketReferences(bucket, list, count)[k].0 == bucket
  {
    if list != [] {
      BucketBounded(bucket, list[..|list| - 1], count);
    }
  }

  lemma DeletedLoose(b: Book, id: Id)
    requires Loose(b) && id in b.mapInfo && !b.mapInfo[id].inTried && b.mapInfo[id].refCount == 0
    ensures CanDelete(b, id) && Loose(Deleted(b, id)) && Deleted(b, id).mapInfo.Keys == b.mapInfo.Keys - {id}
  {
    assert id in PosOf(b.mapInfo);
    var i, j := b.mapInfo[id].randomPos, |b.vRandom| - 1;
    assert b.vRandom[j] in PosOf(b.mapInfo);
    var b1 := Swapped(b, i, j);
    SwappedLoose(b, i, j);
    hide Swapped;
    PoppedLoose(b1, id);
    LooseCounts(Popped(b1, id), b.nNew - 1, b.nTried);
  }

  lemma SwappedLoose(b: Book, i: int, j: int)
    requires Loose(b) && 0 <= i < |b.vRandom| && 0 <= j < |b.vRandom|
    ensures CanSwap(b, i, j)
    ensures var b' := Swapped(b, i, j);
            && Loose(b') && b'.mapInfo.Keys == b.mapInfo.Keys && |b'.vRandom| == |b.vRandom| && b'.nTried == b.nTried
            && b'.mapInfo[b.vRandom[i]].randomPos == j
  {
    assert b.vRandom[i] in PosOf(b.mapInfo) && b.vRandom[j] in PosOf(b.mapInfo);
    if i != j {
      SwappedColumns(b, i, j);
      SwappedRandom(PosOf(b.mapInfo), b.vRandom, i, j);
      hide Swapped, DataOf, PosOf, IdsKnown, AddrsBack, RandomAgrees;
    }
  }

  lemma SwappedColumns(b: Book, i: int, j: int)
    requires i != j && CanSwap(b, i, j) && b.vRandom[i] != b.vRandom[j]
    ensures var (b', id1, id2) := (Swapped(b, i, j), b.vRandom[i], b.vRandom[j]);
            && b' == b.(mapInfo := b'.mapInfo, vRandom := b.vRandom[i := id2][j := id1])
            && DataOf(b'.mapInfo) == DataOf(b.mapInfo) && PosOf(b'.mapInfo) == PosOf(b.mapInfo)[id1 := j][id2 := i]
            && b'.mapInfo.Keys == b.mapInfo.Keys && b'.mapInfo[id1].randomPos == j
  {
    var (id1, id2) := (b.vRandom[i], b.vRandom[j]);
    var m := b.mapInfo[id1 := b.mapInfo[id1].(randomPos := j)];
    ColumnsKept(b.mapInfo, id1, b.mapInfo[id1].(randomPos := j));
    ColumnsKept(m, id2, m[id2].(randomPos := i));
    Columns(b.mapInfo, id1, b.mapInfo[id1].(randomPos := j));
    Columns(m, id2, m[id2].(randomPos := i));
  }

  lemma PoppedLoose(b: Book, id: Id)
    requires Loose(b) && id in b.mapInfo && b.mapInfo[id].randomPos == |b.vRandom| - 1
    ensures b.vRandom != [] && Loose(Popped(b, id)) && Popped(b, id).mapInfo.Keys == b.mapInfo.Keys - {id}
  {
    assert id in PosOf(b.mapInfo);
    ColumnsWithout(b.mapInfo, id);
    PoppedRandom(PosOf(b.mapInfo), b.vRandom, id);
    assert id in DataOf(b.mapInfo);
  }
}
