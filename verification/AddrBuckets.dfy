/** Where the tables of the address manager put what they hold. */
module AddrBuckets {
  import opened AddrBook

  /** Every occupied slot is the one the hashes give: in the tried table by group and address, in the new
      table, within a bucket, by address; and no entry has more than eight slots. */
  lemma PlacesMean(env: Env, b: Book)
    requires Core(env, b)
    ensures forall slot :: slot in b.vvTried ==>
              && b.vvTried[slot] in b.mapInfo
              && var s := b.mapInfo[b.vvTried[slot]].data.service;
                 && slot.0 == env.triedHash(env.group(s.host), env.keyHash(s) % 8) % 256
                 && slot.1 == env.positionHash(s, false, slot.0) % 64
    ensures forall slot :: slot in b.vvNew ==>
              && b.vvNew[slot] in b.mapInfo && slot.0 < 1024
              && slot.1 == env.positionHash(b.mapInfo[b.vvNew[slot]].data.service, true, slot.0) % 64
    ensures forall id :: id in b.mapInfo ==> |Refs(b.vvNew, id)| <= 8
  {
    forall slot | slot in b.vvTried
      ensures b.vvTried[slot] in b.mapInfo && slot == TriedSlot(env, b.mapInfo[b.vvTried[slot]].data.service)
    {
      assert b.vvTried[slot] in DataOf(b.mapInfo);
    }
    forall slot | slot in b.vvNew
      ensures b.vvNew[slot] in b.mapInfo && slot.0 < 1024
      ensures slot.1 == Position(env, b.mapInfo[b.vvNew[slot]].data.service, true, slot.0)
    {
      assert b.vvNew[slot] in DataOf(b.mapInfo);
    }
    forall id | id in b.mapInfo
      ensures |Refs(b.vvNew, id)| <= 8
    {
      assert id in RefsOf(b.mapInfo);
    }
  }

  /** The buckets of the new table that a source can put an address into depend on the groups only. */
  lemma NewSlotIs(env: Env, s: Service, source: nat)
    ensures var slot := NewSlot(env, s, source);
            && slot.0 == env.newHash(env.group(source), env.groupsHash(env.group(s.host), env.group(source)) % 64) % 1024
            && slot.1 == env.positionHash(s, true, slot.0) % 64
  {
  }

  /** The buckets that hash values below `n` lead to. */
  ghost function Choices(h: (nat, nat) -> nat, group: nat, n: nat, count: nat): set<nat>
    requires count > 0
  {
    if n == 0 then {} else Choices(h, group, n - 1, count) + {h(group, n - 1) % count}
  }

  lemma {:induction false} ChoiceCount(h: (nat, nat) -> nat, group: nat, n: nat, count: nat)
    requires count > 0
    ensures |Choices(h, group, n, count)| <= n
    ensures forall k: nat :: k < n ==> h(group, k) % count in Choices(h, group, n, count)
  {
    if n > 0 {
      ChoiceCount(h, group, n - 1, count);
    }
  }

  /** Whoever controls one group of addresses can fill eight buckets of the tried table at most. */
  lemma GroupIsConfined(env: Env, b: Book, group: nat)
    requires Core(env, b)
    ensures |set slot | slot in b.vvTried && b.vvTried[slot] in b.mapInfo
                        && env.group(b.mapInfo[b.vvTried[slot]].data.service.host) == group :: slot.0| <= 8
  {
    var buckets := set slot | slot in b.vvTried && b.vvTried[slot] in b.mapInfo
                              && env.group(b.mapInfo[b.vvTried[slot]].data.service.host) == group :: slot.0;
    PlacesMean(env, b);
    ChoiceCount(env.triedHash, group, 8, 256);
    hide Choices, Core;
    SmallerSet(buckets, Choices(env.triedHash, group, 8, 256));
  }

  /** Whoever controls the sources of one group can use 64 buckets of the new table at most. */
  lemma SourceIsConfined(env: Env, group: nat, services: set<Service>, sources: set<nat>)
    ensures |set s, source | s in services && source in sources && env.group(source) == group :: NewSlot(env, s, source).0| <= 64
  {
    var buckets := set s, source | s in services && source in sources && env.group(source) == group :: NewSlot(env, s, source).0;
    ChoiceCount(env.newHash, group, 64, 1024);
    hide Choices;
    SmallerSet(buckets, Choices(env.newHash, group, 64, 1024));
  }

  lemma {:induction false} SmallerSet(s: set<nat>, t: set<nat>)
    requires s <= t
    ensures |s| <= |t|
  {
    assert t == s + (t - s);
  }
}
