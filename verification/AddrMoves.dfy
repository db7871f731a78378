/** How entries move between the new and the tried table. */
module AddrMoves {
  import opened AddrBook

  /** Empties a slot of the new table; an entry that loses its last reference is forgotten. */
  function ClearedNew(b: Book, slot: Slot): Book {
    if slot !in b.vvNew then b
    else
      var id := b.vvNew[slot];
      var b1 := WithoutRef(b, slot);
      if id in b1.mapInfo && b1.mapInfo[id].refCount == 0 then Deleted(b1, id) else b1
  }

  /** Removes every reference to an entry from the new table. */
  function Unreferenced(b: Book, id: Id): Book {
    if id !in b.mapInfo then b
    else b.(vvNew := map slot | slot in b.vvNew && b.vvNew[slot] != id :: b.vvNew[slot],
            mapInfo := b.mapInfo[id := b.mapInfo[id].(refCount := 0)])
  }

  /** Moves a tried entry back to the new table, whoever sits there. */
  function Evicted(env: Env, b: Book, slot: Slot): Book {
    if slot !in b.vvTried || b.vvTried[slot] !in b.mapInfo then b
    else
      var id := b.vvTried[slot];
      var to := NewSlot(env, b.mapInfo[id].data.service, b.mapInfo[id].data.source);
      var b1 := WithoutTried(b, slot).(nTried := b.nTried - 1);
      var b2 := WithRef(ClearedNew(b1, to), to, id);
      b2.(nNew := b2.nNew + 1)
  }

  /** Moves an entry from the new table to its place in the tried table. */
  function MadeTried(env: Env, b: Book, id: Id): Book {
    if id !in b.mapInfo then b
    else
      var slot := TriedSlot(env, b.mapInfo[id].data.service);
      var b1 := Unreferenced(b, id);
      var b2 := Evicted(env, b1.(nNew := b1.nNew - 1), slot);
      WithTried(b2, slot, id).(nTried := b2.nTried + 1)
  }

  // ---- Every move keeps the agreement ----

  ghost predicate Counted(b: Book) {
    b.nTried == |b.vvTried| && b.nNew == |b.mapInfo| - |b.vvTried|
  }

  /** How far the counters are from a recount. */
  ghost function NewOff(b: Book): int { b.nNew - (|b.mapInfo| - |b.vvTried|) }
  ghost function TriedOff(b: Book): int { b.nTried - |b.vvTried| }

  ghost predicate Settled(m: Infos, but: set<Id>) {
    forall id :: id in m && id !in but ==> m[id].inTried || m[id].refCount > 0
  }

  lemma DeletedCounts(b: Book, id: Id, b': Book)
    requires CanDelete(b, id) && b' == Deleted(b, id) && SameEntries(b'.mapInfo, b.mapInfo - {id})
    ensures NewOff(b') == NewOff(b) && TriedOff(b') == TriedOff(b)
    ensures b'.vvTried == b.vvTried && b'.vvNew == b.vvNew && b'.idCount == b.idCount
  {
    assert id in b.mapInfo;
    hide Deleted, SameEntries, CanDelete, NewOff, TriedOff;
    DeletedRest(b, id);
    SameCard(b'.mapInfo, b.mapInfo - {id});
    CardWithout(b.mapInfo, id);
    SameOffs(b, b');
  }

  lemma SameOffs(b: Book, b': Book)
    requires |b'.mapInfo| == |b.mapInfo| - 1 && b'.vvTried == b.vvTried && b'.nNew == b.nNew - 1 && b'.nTried == b.nTried
    ensures NewOff(b') == NewOff(b) && TriedOff(b') == TriedOff(b)
  {
  }

  lemma DeletedRest(b: Book, id: Id)
    requires CanDelete(b, id)
    ensures var b' := Deleted(b, id);
            && b'.vvTried == b.vvTried && b'.vvNew == b.vvNew && b'.idCount == b.idCount
            && b'.nNew == b.nNew - 1 && b'.nTried == b.nTried
  {
  }

  lemma CardWithout(m: Infos, id: Id)
    requires id in m
    ensures |m - {id}| == |m| - 1
  {
    assert (m - {id}).Keys == m.Keys - {id};
  }

  lemma SameCard(m: Infos, m': Infos)
    requires SameEntries(m, m')
    ensures m.Keys == m'.Keys && |m| == |m'|
  {
    assert DataOf(m).Keys == m.Keys && DataOf(m').Keys == m'.Keys;
  }

  lemma SettledSame(m: Infos, m': Infos, but: set<Id>)
    requires SameEntries(m, m') && Settled(m', but)
    ensures Settled(m, but)
  {
    SameCard(m, m');
    forall id | id in m && id !in but
      ensures m[id].inTried || m[id].refCount > 0
    {
      assert id in m';
      EntryKept(m, m', id);
    }
  }

  /** What `ClearedNew` promises. */
  ghost predicate Clears(b: Book, slot: Slot, b': Book, but: set<Id>) {
    && b'.vvNew == b.vvNew - {slot} && b'.vvTried == b.vvTried && b'.idCount == b.idCount
    && NewOff(b') == NewOff(b) && TriedOff(b') == TriedOff(b)
    && (forall id :: id in b.mapInfo && (slot in b.vvNew ==> id != b.vvNew[slot]) ==>
          id in b'.mapInfo && b'.mapInfo[id] == b.mapInfo[id].(randomPos := b'.mapInfo[id].randomPos))
    && (forall id :: id in b'.mapInfo ==> id in b.mapInfo && b'.mapInfo[id].data == b.mapInfo[id].data)
    && (Settled(b.mapInfo, but) && (slot in b.vvNew ==> b.vvNew[slot] !in but) ==> Settled(b'.mapInfo, but))
  }

  lemma ClearedNewCore(env: Env, b: Book, slot: Slot, but: set<Id>)
    requires Core(env, b)
    ensures Core(env, ClearedNew(b, slot)) && Clears(b, slot, ClearedNew(b, slot), but)
  {
    hide Core;
    if slot in b.vvNew {
      var id := b.vvNew[slot];
      var b1 := WithoutRef(b, slot);
      WithoutRefCore(env, b, slot);
      if b1.mapInfo[id].refCount == 0 {
        DeletedCore(env, b1, id);
        DeletedCounts(b1, id, Deleted(b1, id));
        ClearsLast(b, slot, b1, Deleted(b1, id), but);
      } else {
        ClearsOne(b, slot, b1, but);
      }
    } else {
      assert b.vvNew - {slot} == b.vvNew;
    }
  }

  lemma ClearsOne(b: Book, slot: Slot, b1: Book, but: set<Id>)
    requires slot in b.vvNew && b.vvNew[slot] in b.mapInfo && b1 == WithoutRef(b, slot)
    requires b1.mapInfo[b.vvNew[slot]].refCount > 0
    ensures Clears(b, slot, b1, but)
  {
    assert b1.mapInfo.Keys == b.mapInfo.Keys;
  }

  lemma ClearsLast(b: Book, slot: Slot, b1: Book, b2: Book, but: set<Id>)
    requires slot in b.vvNew && b.vvNew[slot] in b.mapInfo && b1 == WithoutRef(b, slot)
    requires b2.vvNew == b1.vvNew && b2.vvTried == b1.vvTried && b2.idCount == b1.idCount
    requires NewOff(b2) == NewOff(b1) && TriedOff(b2) == TriedOff(b1)
    requires SameEntries(b2.mapInfo, b1.mapInfo - {b.vvNew[slot]})
    ensures Clears(b, slot, b2, but)
  {
    var out := b.vvNew[slot];
    assert b1.mapInfo.Keys == b.mapInfo.Keys;
    SameCard(b2.mapInfo, b1.mapInfo - {out});
    forall id | id in b2.mapInfo
      ensures id in b.mapInfo && id != out && b2.mapInfo[id] == b.mapInfo[id].(randomPos := b2.mapInfo[id].randomPos)
    {
      assert id in b1.mapInfo - {out};
      EntryKept(b2.mapInfo, b1.mapInfo - {out}, id);
    }
    forall id | id in b.mapInfo && id != out
      ensures id in b2.mapInfo
    {
      assert id in b1.mapInfo - {out};
    }
  }

  lemma UnreferencedCore(env: Env, b: Book, id: Id)
    requires Core(env, b) && id in b.mapInfo && !b.mapInfo[id].inTried
    ensures Core(env, Unreferenced(b, id))
  {
    var m := b.mapInfo;
    var info := m[id].(refCount := 0);
    Columns(m, id, info);
    ColumnsKept(m, id, info);
    UnreferencedAgrees(RefsOf(m), b.vvNew, id);
  }

  lemma UnreferencedAgrees(refs: map<Id, int>, vvNew: map<Slot, Id>, id: Id)
    requires RefsAgree(refs, vvNew) && id in refs
    ensures RefsAgree(refs[id := 0], map slot | slot in vvNew && vvNew[slot] != id :: vvNew[slot])
  {
    var vvNew' := map slot | slot in vvNew && vvNew[slot] != id :: vvNew[slot];
    forall other | other in refs
      ensures Refs(vvNew', other) == if other == id then {} else Refs(vvNew, other)
    {
    }
  }

  /** What `Evicted` promises: the slot is free and its former owner has one reference again. */
  ghost predicate Evicts(env: Env, b: Book, slot: Slot, b': Book, but: set<Id>)
    requires slot in b.vvTried && b.vvTried[slot] in b.mapInfo
  {
    var id := b.vvTried[slot];
    var to := NewSlot(env, b.mapInfo[id].data.service, b.mapInfo[id].data.source);
    && b'.vvTried == b.vvTried - {slot} && b'.vvNew == b.vvNew[to := id] && b'.idCount == b.idCount
    && NewOff(b') == NewOff(b) && TriedOff(b') == TriedOff(b)
    && (forall i :: i in b'.mapInfo ==> i in b.mapInfo && b'.mapInfo[i].data == b.mapInfo[i].data)
    && (forall i :: i in but && i in b.mapInfo && i != id ==>
          i in b'.mapInfo && b'.mapInfo[i] == b.mapInfo[i].(randomPos := b'.mapInfo[i].randomPos))
    && (Settled(b.mapInfo, but) ==> Settled(b'.mapInfo, but))
  }

  lemma EvictedCore(env: Env, b: Book, slot: Slot, but: set<Id>)
    requires Core(env, b) && slot in b.vvTried
    requires forall s :: s in b.vvNew ==> b.vvNew[s] !in but
    ensures b.vvTried[slot] in b.mapInfo
    ensures Core(env, Evicted(env, b, slot)) && Evicts(env, b, slot, Evicted(env, b, slot), but)
  {
    hide Core, Clears, Evicts, WithRef, ClearedNew, DataOf;
    WithoutTriedCore(env, b, slot);
    var id := b.vvTried[slot];
    var to := NewSlot(env, b.mapInfo[id].data.service, b.mapInfo[id].data.source);
    var b1 := WithoutTried(b, slot).(nTried := b.nTried - 1);
    CoreCounts(env, WithoutTried(b, slot), b.nNew, b.nTried - 1);
    var b2 := ClearedNew(b1, to);
    NoRefs(env, b1, id);
    ClearedNewCore(env, b1, to, but + {id});
    ClearsEntry(b1, to, b2, but + {id}, id);
    WithRefCore(env, b2, to, id);
    CoreCounts(env, WithRef(b2, to, id), WithRef(b2, to, id).nNew + 1, WithRef(b2, to, id).nTried);
    EvictsSteps(env, b, slot, b1, b2, but);
  }

  lemma NoRefs(env: Env, b: Book, id: Id)
    requires Core(env, b) && id in b.mapInfo && b.mapInfo[id].refCount == 0
    ensures forall slot :: slot in b.vvNew ==> b.vvNew[slot] != id
  {
    assert id in RefsOf(b.mapInfo);
    forall slot | slot in b.vvNew
      ensures b.vvNew[slot] != id
    {
      assert slot !in Refs(b.vvNew, id);
    }
  }

  lemma ClearsEntry(b: Book, slot: Slot, b': Book, but: set<Id>, id: Id)
    requires Clears(b, slot, b', but) && id in b.mapInfo && (slot in b.vvNew ==> id != b.vvNew[slot])
    ensures id in b'.mapInfo && b'.mapInfo[id] == b.mapInfo[id].(randomPos := b'.mapInfo[id].randomPos)
    ensures slot !in b'.vvNew
  {
  }

  lemma EvictsSteps(env: Env, b: Book, slot: Slot, b1: Book, b2: Book, but: set<Id>)
    requires slot in b.vvTried && b.vvTried[slot] in b.mapInfo
    requires b1 == WithoutTried(b, slot).(nTried := b.nTried - 1)
    requires var id := b.vvTried[slot];
             var to := NewSlot(env, b.mapInfo[id].data.service, b.mapInfo[id].data.source);
             && b2 == ClearedNew(b1, to) && Clears(b1, to, b2, but + {id})
             && id in b2.mapInfo && b2.mapInfo[id].refCount == 0
             && (to in b1.vvNew ==> b1.vvNew[to] !in but + {id})
    ensures Evicts(env, b, slot, Evicted(env, b, slot), but)
  {
    hide ClearedNew, Clears;
    var id := b.vvTried[slot];
    var to := NewSlot(env, b.mapInfo[id].data.service, b.mapInfo[id].data.source);
    EvictsTables(b, slot, b1, b2, to, id, but);
    EvictsEntries(b, slot, b1, b2, to, id, but);
  }

  lemma EvictsTables(b: Book, slot: Slot, b1: Book, b2: Book, to: Slot, id: Id, but: set<Id>)
    requires slot in b.vvTried && b.vvTried[slot] == id && id in b.mapInfo
    requires b1 == WithoutTried(b, slot).(nTried := b.nTried - 1)
    requires Clears(b1, to, b2, but + {id}) && id in b2.mapInfo
    ensures var b3 := WithRef(b2, to, id).(nNew := b2.nNew + 1);
            && b3.vvTried == b.vvTried - {slot} && b3.vvNew == b.vvNew[to := id] && b3.idCount == b.idCount
            && NewOff(b3) == NewOff(b) && TriedOff(b3) == TriedOff(b)
  {
    hide Clears, WithoutTried, WithRef;
    ClearsTables(b1, to, b2, but + {id});
    WithoutTriedCounts(b, slot);
    WithRefCounts(b2, to, id);
    PutBack(b1.vvNew, to, id);
  }

  lemma PutBack<K, V>(m: map<K, V>, k: K, v: V)
    ensures (m - {k})[k := v] == m[k := v]
  {
  }

  lemma ClearsTables(b: Book, slot: Slot, b': Book, but: set<Id>)
    requires Clears(b, slot, b', but)
    ensures b'.vvNew == b.vvNew - {slot} && b'.vvTried == b.vvTried && b'.idCount == b.idCount
    ensures NewOff(b') == NewOff(b) && TriedOff(b') == TriedOff(b)
  {
  }

  lemma WithoutTriedCounts(b: Book, slot: Slot)
    requires slot in b.vvTried && b.vvTried[slot] in b.mapInfo
    ensures var b' := WithoutTried(b, slot);
            && |b'.mapInfo| == |b.mapInfo| && b'.vvTried == b.vvTried - {slot} && |b'.vvTried| == |b.vvTried| - 1
            && b'.vvNew == b.vvNew && b'.idCount == b.idCount && b'.nNew == b.nNew
  {
    var b' := WithoutTried(b, slot);
    CardUpdate(b.mapInfo, b.vvTried[slot], b'.mapInfo[b.vvTried[slot]]);
    assert b'.vvTried.Keys == b.vvTried.Keys - {slot};
  }

  lemma WithRefCounts(b: Book, slot: Slot, id: Id)
    requires id in b.mapInfo
    ensures var b' := WithRef(b, slot, id);
            && |b'.mapInfo| == |b.mapInfo| && b'.vvTried == b.vvTried && b'.vvNew == b.vvNew[slot := id]
            && b'.idCount == b.idCount && b'.nNew == b.nNew && b'.nTried == b.nTried
  {
    CardUpdate(b.mapInfo, id, WithRef(b, slot, id).mapInfo[id]);
  }

  lemma CardUpdate(m: Infos, id: Id, info: AddrInfo)
    requires id in m
    ensures |m[id := info]| == |m|
  {
    assert m[id := info].Keys == m.Keys;
  }

  lemma EvictsEntries(b: Book, slot: Slot, b1: Book, b2: Book, to: Slot, id: Id, but: set<Id>)
    requires slot in b.vvTried && b.vvTried[slot] == id && id in b.mapInfo
    requires b1 == WithoutTried(b, slot).(nTried := b.nTried - 1)
    requires Clears(b1, to, b2, but + {id}) && id in b2.mapInfo && b2.mapInfo[id].refCount == 0
    requires to in b1.vvNew ==> b1.vvNew[to] !in but + {id}
    ensures var b3 := WithRef(b2, to, id).(nNew := b2.nNew + 1);
            && (forall i :: i in b3.mapInfo ==> i in b.mapInfo && b3.mapInfo[i].data == b.mapInfo[i].data)
            && (forall i :: i in but && i in b.mapInfo && i != id ==>
                  i in b3.mapInfo && b3.mapInfo[i] == b.mapInfo[i].(randomPos := b3.mapInfo[i].randomPos))
            && (Settled(b.mapInfo, but) ==> Settled(b3.mapInfo, but))
  {
    hide NewOff, TriedOff;
    assert forall i :: i in b1.mapInfo <==> i in b.mapInfo;
    if Settled(b.mapInfo, but) {
      assert Settled(b1.mapInfo, but + {id});
    }
  }

  // ---- The whole move ----

  function WithoutId(table: map<Slot, Id>, id: Id): map<Slot, Id> {
    map slot | slot in table && table[slot] != id :: table[slot]
  }

  /** What becomes of the new table: the moved entry leaves it, and the one it displaces in the
      tried table comes back at the slot of its own source. */
  ghost function NewAfterMove(env: Env, b: Book, id: Id): map<Slot, Id>
    requires id in b.mapInfo
  {
    var slot := TriedSlot(env, b.mapInfo[id].data.service);
    var left := WithoutId(b.vvNew, id);
    if slot in b.vvTried && b.vvTried[slot] in b.mapInfo then
      var out := b.vvTried[slot];
      left[NewSlot(env, b.mapInfo[out].data.service, b.mapInfo[out].data.source) := out]
    else left
  }

  ghost predicate Within(data: map<Id, Data>, data': map<Id, Data>) {
    forall id :: id in data ==> id in data' && data[id] == data'[id]
  }

  ghost predicate Moves(env: Env, b: Book, id: Id, b': Book)
    requires id in b.mapInfo
  {
    && b'.vvTried == b.vvTried[TriedSlot(env, b.mapInfo[id].data.service) := id]
    && b'.vvNew == NewAfterMove(env, b, id)
    && b'.idCount == b.idCount
    && Within(DataOf(b'.mapInfo), DataOf(b.mapInfo))
    && Counted(b') && Settled(b'.mapInfo, {})
  }

  lemma MadeTriedCore(env: Env, b: Book, id: Id)
    requires Core(env, b) && Counted(b) && id in b.mapInfo && Settled(b.mapInfo, {id})
    requires !b.mapInfo[id].inTried && b.mapInfo[id].data.lastSuccess != 0
    ensures Core(env, MadeTried(env, b, id)) && Moves(env, b, id, MadeTried(env, b, id))
  {
    hide Core, Evicts, Settled, Counted, Evicted, NewOff, TriedOff;
    var slot := TriedSlot(env, b.mapInfo[id].data.service);
    var b1 := Unreferenced(b, id).(nNew := b.nNew - 1);
    UnreferencedCore(env, b, id);
    CoreCounts(env, Unreferenced(b, id), b.nNew - 1, b.nTried);
    var b2 := Evicted(env, b1, slot);
    MoveReady(env, b, id, b1, slot, b2);
    WithTriedCore(env, b2, id);
    CoreCounts(env, WithTried(b2, slot, id), b2.nNew, b2.nTried + 1);
    MoveDone(env, b, id, b1, slot, b2);
  }

  /** After eviction the slot is free, and the entry is where it was, in transit. */
  lemma MoveReady(env: Env, b: Book, id: Id, b1: Book, slot: Slot, b2: Book)
    requires id in b.mapInfo && !b.mapInfo[id].inTried && slot == TriedSlot(env, b.mapInfo[id].data.service)
    requires b1 == Unreferenced(b, id).(nNew := b.nNew - 1) && Core(env, b1) && b2 == Evicted(env, b1, slot)
    ensures Core(env, b2) && slot !in b2.vvTried
    ensures id in b2.mapInfo && b2.mapInfo[id] == b.mapInfo[id].(refCount := 0, randomPos := b2.mapInfo[id].randomPos)
    ensures slot in b1.vvTried ==> b1.vvTried[slot] in b1.mapInfo && b1.vvTried[slot] != id && Evicts(env, b1, slot, b2, {id})
    ensures slot !in b1.vvTried ==> b2 == b1
  {
    hide Core, NewOff, TriedOff, Settled;
    if slot in b1.vvTried {
      WithoutTriedCore(env, b1, slot);
      EvictedCore(env, b1, slot, {id});
    }
  }

  lemma MoveDone(env: Env, b: Book, id: Id, b1: Book, slot: Slot, b2: Book)
    requires id in b.mapInfo && slot == TriedSlot(env, b.mapInfo[id].data.service)
    requires Counted(b) && Settled(b.mapInfo, {id}) && b1 == Unreferenced(b, id).(nNew := b.nNew - 1)
    requires slot in b1.vvTried ==> b1.vvTried[slot] in b1.mapInfo && b1.vvTried[slot] != id && Evicts(env, b1, slot, b2, {id})
    requires slot !in b1.vvTried ==> b2 == b1
    requires id in b2.mapInfo && slot !in b2.vvTried
    ensures Moves(env, b, id, WithTried(b2, slot, id).(nTried := b2.nTried + 1))
  {
    MoveCounts(env, b, id, b1, slot, b2);
    MoveEntries(env, b, id, b1, slot, b2);
    MoveTables(env, b, id, b1, slot, b2);
  }

  lemma MoveCounts(env: Env, b: Book, id: Id, b1: Book, slot: Slot, b2: Book)
    requires id in b.mapInfo && Counted(b) && b1 == Unreferenced(b, id).(nNew := b.nNew - 1)
    requires slot in b1.vvTried ==> b1.vvTried[slot] in b1.mapInfo && Evicts(env, b1, slot, b2, {id})
    requires slot !in b1.vvTried ==> b2 == b1
    requires id in b2.mapInfo && slot !in b2.vvTried
    ensures Counted(WithTried(b2, slot, id).(nTried := b2.nTried + 1))
  {
    UnreferencedCounts(b, id);
    WithTriedCounts(b2, slot, id);
    hide Unreferenced, WithTried;
    if slot in b1.vvTried {
      EvictsCounts(env, b1, slot, b2, {id});
    }
    hide Evicts;
  }

  lemma EvictsCounts(env: Env, b: Book, slot: Slot, b': Book, but: set<Id>)
    requires slot in b.vvTried && b.vvTried[slot] in b.mapInfo && Evicts(env, b, slot, b', but)
    ensures NewOff(b') == NewOff(b) && TriedOff(b') == TriedOff(b)
  {
  }

  lemma UnreferencedCounts(b: Book, id: Id)
    requires id in b.mapInfo
    ensures var b' := Unreferenced(b, id);
            |b'.mapInfo| == |b.mapInfo| && b'.vvTried == b.vvTried && b'.nTried == b.nTried && b'.nNew == b.nNew
  {
    CardUpdate(b.mapInfo, id, Unreferenced(b, id).mapInfo[id]);
  }

  lemma WithTriedCounts(b: Book, slot: Slot, id: Id)
    requires id in b.mapInfo && slot !in b.vvTried
    ensures var b' := WithTried(b, slot, id);
            |b'.mapInfo| == |b.mapInfo| && |b'.vvTried| == |b.vvTried| + 1 && b'.nTried == b.nTried && b'.nNew == b.nNew
  {
    var b' := WithTried(b, slot, id);
    CardUpdate(b.mapInfo, id, b'.mapInfo[id]);
    assert b'.vvTried.Keys == b.vvTried.Keys + {slot};
  }

  lemma MoveEntries(env: Env, b: Book, id: Id, b1: Book, slot: Slot, b2: Book)
    requires id in b.mapInfo && Settled(b.mapInfo, {id}) && b1 == Unreferenced(b, id).(nNew := b.nNew - 1)
    requires slot in b1.vvTried ==> b1.vvTried[slot] in b1.mapInfo && Evicts(env, b1, slot, b2, {id})
    requires slot !in b1.vvTried ==> b2 == b1
    requires id in b2.mapInfo
    ensures Settled(WithTried(b2, slot, id).mapInfo, {})
    ensures Within(DataOf(WithTried(b2, slot, id).mapInfo), DataOf(b.mapInfo))
  {
    hide NewOff, TriedOff, DataOf, Within;
    assert Settled(b1.mapInfo, {id});
    assert forall i :: i in b1.mapInfo ==> i in b.mapInfo && b1.mapInfo[i].data == b.mapInfo[i].data;
    MoveData(b, b2, slot, id);
  }

  lemma MoveData(b: Book, b2: Book, slot: Slot, id: Id)
    requires id in b2.mapInfo && forall i :: i in b2.mapInfo ==> i in b.mapInfo && b2.mapInfo[i].data == b.mapInfo[i].data
    ensures Within(DataOf(WithTried(b2, slot, id).mapInfo), DataOf(b.mapInfo))
  {
  }

  lemma MoveTables(env: Env, b: Book, id: Id, b1: Book, slot: Slot, b2: Book)
    requires id in b.mapInfo && slot == TriedSlot(env, b.mapInfo[id].data.service)
    requires b1 == Unreferenced(b, id).(nNew := b.nNew - 1)
    requires slot in b1.vvTried ==> b1.vvTried[slot] in b1.mapInfo && b1.vvTried[slot] != id && Evicts(env, b1, slot, b2, {id})
    requires slot !in b1.vvTried ==> b2 == b1
    requires id in b2.mapInfo
    ensures var b3 := WithTried(b2, slot, id);
            && b3.vvTried == b.vvTried[slot := id] && b3.vvNew == NewAfterMove(env, b, id) && b3.idCount == b.idCount
  {
    hide NewOff, TriedOff, Settled;
    assert (b.vvTried - {slot})[slot := id] == b.vvTried[slot := id];
  }

  // ---- Entering the new table ----

  /** Puts a reference into a slot, whoever had it. */
  function Placed(b: Book, slot: Slot, id: Id): Book {
    WithRef(ClearedNew(b, slot), slot, id)
  }

  ghost predicate Places(b: Book, slot: Slot, id: Id, b': Book) {
    && b'.vvNew == b.vvNew[slot := id] && b'.vvTried == b.vvTried && b'.idCount == b.idCount
    && Within(DataOf(b'.mapInfo), DataOf(b.mapInfo))
    && Counted(b') && Settled(b'.mapInfo, {}) && id in b'.mapInfo
  }

  lemma PlacedCore(env: Env, b: Book, slot: Slot, id: Id)
    requires Core(env, b) && Counted(b) && Settled(b.mapInfo, {id}) && id in b.mapInfo && !b.mapInfo[id].inTried
    requires b.mapInfo[id].refCount < NEW_BUCKETS_PER_ADDRESS && (slot in b.vvNew ==> b.vvNew[slot] != id)
    requires slot.0 < NEW_BUCKET_COUNT && slot.1 == Position(env, b.mapInfo[id].data.service, true, slot.0)
    ensures Core(env, Placed(b, slot, id)) && Places(b, slot, id, Placed(b, slot, id))
  {
    hide Core, Clears, ClearedNew, Counted, Settled;
    ClearedNewCore(env, b, slot, {id});
    var b1 := ClearedNew(b, slot);
    ClearsEntry(b, slot, b1, {id}, id);
    WithRefCore(env, b1, slot, id);
    NonNegRefs(env, b1, id);
    PlacesSteps(b, slot, id, b1);
  }

  lemma NonNegRefs(env: Env, b: Book, id: Id)
    requires Core(env, b) && id in b.mapInfo
    ensures b.mapInfo[id].refCount >= 0
  {
    assert id in RefsOf(b.mapInfo);
  }

  lemma PlacesSteps(b: Book, slot: Slot, id: Id, b1: Book)
    requires Counted(b) && Settled(b.mapInfo, {id}) && id in b.mapInfo && (slot in b.vvNew ==> b.vvNew[slot] != id)
    requires Clears(b, slot, b1, {id}) && id in b1.mapInfo && b1.mapInfo[id].refCount >= 0
    ensures Places(b, slot, id, WithRef(b1, slot, id))
  {
    hide NewOff, TriedOff, Counted, Within, Settled;
    assert (b.vvNew - {slot})[slot := id] == b.vvNew[slot := id];
    PlacesCounts(b, slot, id, b1);
    PlacesData(b, slot, id, b1);
    PlacesSettled(b, slot, id, b1);
  }

  lemma PlacesSettled(b: Book, slot: Slot, id: Id, b1: Book)
    requires Settled(b.mapInfo, {id}) && (slot in b.vvNew ==> b.vvNew[slot] != id)
    requires Clears(b, slot, b1, {id}) && id in b1.mapInfo && b1.mapInfo[id].refCount >= 0
    ensures Settled(WithRef(b1, slot, id).mapInfo, {})
  {
    hide NewOff, TriedOff;
  }

  lemma PlacesCounts(b: Book, slot: Slot, id: Id, b1: Book)
    requires Counted(b) && Clears(b, slot, b1, {id}) && id in b1.mapInfo
    ensures Counted(WithRef(b1, slot, id))
  {
    CardUpdate(b1.mapInfo, id, WithRef(b1, slot, id).mapInfo[id]);
  }

  lemma PlacesData(b: Book, slot: Slot, id: Id, b1: Book)
    requires Clears(b, slot, b1, {id}) && id in b1.mapInfo
    ensures Within(DataOf(WithRef(b1, slot, id).mapInfo), DataOf(b.mapInfo))
  {
    hide NewOff, TriedOff, Settled;
  }

  /** What is known of the ids that occupy some slot. */
  ghost function Kept(data: map<Id, Data>, vvNew: map<Slot, Id>, vvTried: map<Slot, Id>): map<Id, Data> {
    map id | id in data && (id in vvNew.Values || id in vvTried.Values) :: data[id]
  }

  /** An address is known exactly as long as it sits in some bucket. */
  lemma KnownIffPlaced(env: Env, b: Book, data: map<Id, Data>)
    requires Core(env, b) && Settled(b.mapInfo, {}) && Within(DataOf(b.mapInfo), data)
    ensures DataOf(b.mapInfo) == Kept(data, b.vvNew, b.vvTried)
  {
    hide Core;
    forall id | id in b.mapInfo
      ensures id in b.vvNew.Values || id in b.vvTried.Values
    {
      HasPlace(env, b, id);
    }
    forall id | id in b.vvNew.Values || id in b.vvTried.Values
      ensures id in b.mapInfo
    {
      PlaceHas(env, b, id);
    }
    assert forall id :: id in DataOf(b.mapInfo) <==> id in b.mapInfo;
    var kept := Kept(data, b.vvNew, b.vvTried);
    assert forall id :: id in DataOf(b.mapInfo) <==> id in kept;
    assert forall id :: id in kept ==> kept[id] == data[id] && DataOf(b.mapInfo)[id] == data[id];
  }

  lemma HasPlace(env: Env, b: Book, id: Id)
    requires Core(env, b) && id in b.mapInfo && (b.mapInfo[id].inTried || b.mapInfo[id].refCount > 0)
    ensures id in b.vvNew.Values || id in b.vvTried.Values
  {
    var m := b.mapInfo;
    assert id in DataOf(m) && id in RefsOf(m) && id in TriedOf(m);
    if m[id].inTried {
      assert TriedAt(env, DataOf(m)[id], b.vvTried, id);
    } else {
      assert Refs(b.vvNew, id) != {};
      var slot :| slot in Refs(b.vvNew, id);
    }
  }

  lemma PlaceHas(env: Env, b: Book, id: Id)
    requires Core(env, b) && (id in b.vvNew.Values || id in b.vvTried.Values)
    ensures id in b.mapInfo
  {
    if slot :| slot in b.vvNew && b.vvNew[slot] == id {
      assert id in DataOf(b.mapInfo);
    } else {
      var slot :| slot in b.vvTried && b.vvTried[slot] == id;
      assert id in DataOf(b.mapInfo);
    }
  }
}
