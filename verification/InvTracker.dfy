/** The inventory request tracker: which peer to ask for which item, and when. */
module InvTracker {
  import opened InvAnnouncements
  import opened InvGroups
  import opened InvSpec

  type Salt = (InvId, NodeId) -> nat

  /** The upper 63 bits of a salted hash, preferredness above them. */
  function ComputePriority(salt: Salt, x: InvId, p: NodeId, preferred: bool): nat {
    salt(x, p) % TWO64 / 2 + (if preferred then PREFERRED_BIT else 0)
  }

  const TWO64 := 0x1_0000_0000_0000_0000

  /** Sequence numbers identify announcements, and `log` lists, without repetition, those that
      were ever requested: such an announcement never becomes a candidate again. */
  ghost predicate Tracked(anns: Anns, salt: Salt, next: nat, log: seq<nat>) {
    && (forall a :: a in anns ==> TrackedOne(a, salt, next, log))
    && (forall a, b :: a in anns && b in anns && a.sequence == b.sequence ==> a == b)
    && (forall i, j :: 0 <= i < j < |log| ==> log[i] != log[j])
    && (forall q :: q in log ==> q < next)
  }

  ghost predicate TrackedOne(a: Announcement, salt: Salt, next: nat, log: seq<nat>) {
    && a.sequence < next
    && a.priority == ComputePriority(salt, a.invid, a.peer, a.preferred)
    && (a.state.Requested? ==> a.sequence in log)
    && (a.sequence in log ==> a.state.Requested? || a.state.Completed?)
  }

  /** The changes an announcement may go through. */
  ghost predicate Follows(a: Announcement, a': Announcement) {
    && a' == a.(state := a'.state, time := a'.time)
    && !a.state.Completed?
    && (a.state.Requested? ==> a'.state.Completed?)
  }

  ghost function LogAfter(log: seq<nat>, a': Announcement): seq<nat> {
    if a'.state.Requested? then log + [a'.sequence] else log
  }

  lemma TrackedReplace(anns: Anns, salt: Salt, next: nat, log: seq<nat>, a: Announcement, a': Announcement)
    requires Tracked(anns, salt, next, log) && a in anns && Follows(a, a')
    ensures Tracked(Replace(anns, a, a'), salt, next, LogAfter(log, a'))
  {
    var anns', log' := Replace(anns, a, a'), LogAfter(log, a');
    forall b | b in anns'
      ensures TrackedOne(b, salt, next, log')
    {
      assert b != a' ==> TrackedOne(b, salt, next, log) && b.sequence != a.sequence;
      assert TrackedOne(a, salt, next, log);
    }
  }

  lemma CountedReplace(anns: Anns, info: map<NodeId, PeerInfo>, a: Announcement, a': Announcement)
    requires Counted(anns, info) && a in anns && a' !in anns - {a} && a'.peer == a.peer
    ensures a.peer in info
    ensures info[a.peer].completed >= One(a.state.Completed?) && info[a.peer].requested >= One(a.state.Requested?)
    ensures Counted(Replace(anns, a, a'), info[a.peer := PeerInfo(
              info[a.peer].total,
              info[a.peer].completed - One(a.state.Completed?) + One(a'.state.Completed?),
              info[a.peer].requested - One(a.state.Requested?) + One(a'.state.Requested?))])
  {
    assert anns - {a} + {a} == anns;
    RecountWith(anns - {a}, a, a.peer);
    assert CountedAt(anns, info, a.peer);
    var info' := info[a.peer := PeerInfo(
              info[a.peer].total,
              info[a.peer].completed - One(a.state.Completed?) + One(a'.state.Completed?),
              info[a.peer].requested - One(a.state.Requested?) + One(a'.state.Requested?))];
    forall p: NodeId
      ensures CountedAt(Replace(anns, a, a'), info', p)
    {
      RecountWith(anns - {a}, a, p);
      RecountWith(anns - {a}, a', p);
      assert CountedAt(anns, info, p);
    }
  }

  /** The statistics after an announcement is erased. */
  function InfoWithout(info: map<NodeId, PeerInfo>, a: Announcement): map<NodeId, PeerInfo>
    requires a.peer in info
    requires info[a.peer].total >= 1
    requires info[a.peer].completed >= One(a.state.Completed?) && info[a.peer].requested >= One(a.state.Requested?)
  {
    var left := PeerInfo(info[a.peer].total - 1,
                         info[a.peer].completed - One(a.state.Completed?),
                         info[a.peer].requested - One(a.state.Requested?));
    if left.total == 0 then info - {a.peer} else info[a.peer := left]
  }

  lemma CountedWithout(anns: Anns, info: map<NodeId, PeerInfo>, a: Announcement)
    requires Counted(anns, info) && a in anns
    ensures a.peer in info && info[a.peer].total >= 1
    ensures info[a.peer].completed >= One(a.state.Completed?) && info[a.peer].requested >= One(a.state.Requested?)
    ensures Counted(anns - {a}, InfoWithout(info, a))
  {
    assert anns - {a} + {a} == anns;
    RecountWith(anns - {a}, a, a.peer);
    assert CountedAt(anns, info, a.peer);
    forall p: NodeId
      ensures CountedAt(anns - {a}, InfoWithout(info, a), p)
    {
      RecountWith(anns - {a}, a, p);
      assert CountedAt(anns, info, p);
    }
  }

  lemma CountedWith(anns: Anns, info: map<NodeId, PeerInfo>, d: Announcement)
    requires Counted(anns, info) && d !in anns && d.state.Delayed?
    ensures var was := if d.peer in info then info[d.peer] else PeerInfo(0, 0, 0);
            Counted(anns + {d}, info[d.peer := was.(total := was.total + 1)])
  {
    var was := if d.peer in info then info[d.peer] else PeerInfo(0, 0, 0);
    var info' := info[d.peer := was.(total := was.total + 1)];
    forall p: NodeId
      ensures CountedAt(anns + {d}, info', p)
    {
      RecountWith(anns, d, p);
      assert CountedAt(anns, info, p);
      if p !in info {
        RecountEmpty(anns, p);
      }
    }
  }

  lemma RecountEmpty(anns: Anns, p: NodeId)
    requires Recount(anns, p).total == 0
    ensures Recount(anns, p) == PeerInfo(0, 0, 0)
  {
    assert Pick(anns, CompletedFrom(p)) <= Pick(anns, FromPeer(p));
    assert Pick(anns, RequestedFrom(p)) <= Pick(anns, FromPeer(p));
  }

  method IndexOf(s: seq<Announcement>, a: Announcement) returns (i: nat)
    requires a in s
    ensures i < |s| && s[i] == a
  {
    i := 0;
    while s[i] != a
      invariant i < |s| && a in s[i..]
      decreases |s| - i
    {
      i := i + 1;
    }
  }

  class InvRequestTracker {
    const salt: Salt
    var index: seq<Announcement>   // in ByInvId order
    var peerinfo: map<NodeId, PeerInfo>
    var currentSequence: nat
    ghost var log: seq<nat>

    ghost function Anns(): Anns
      reads this
    {
      Elems(index)
    }

    /** What every single change of an element keeps. */
    ghost predicate Consistent()
      reads this
    {
      && Sorted(index) && UniqueKeys(index)
      && Counted(Anns(), peerinfo)
      && Tracked(Anns(), salt, currentSequence, log)
    }

    /** What every public operation keeps. */
    ghost predicate Valid()
      reads this
    {
      Consistent() && Good(Anns())
    }

    constructor (salt: Salt)
      ensures Valid() && Anns() == {} && this.salt == salt
    {
      this.salt := salt;
      index, peerinfo, currentSequence, log := [], map[], 0, [];
    }

    /** Changes one announcement and moves it to its new place in the order. */
    method Modify(a: Announcement, a': Announcement)
      requires Consistent() && a in index && Follows(a, a')
      modifies this
      ensures Consistent() && Anns() == Replace(old(Anns()), a, a')
      ensures currentSequence == old(currentSequence) && log == LogAfter(old(log), a')
    {
      CountedReplace(Anns(), peerinfo, a, a');
      TrackedReplace(Anns(), salt, currentSequence, log, a, a');
      var i := IndexOf(index, a);
      WithoutOrdered(index, i);
      var rest := Without(index, i);
      var j := Place(rest, a');
      WithOrdered(rest, j, a');
      var info := peerinfo[a.peer];
      index, log := With(rest, j, a'), LogAfter(log, a');
      peerinfo := peerinfo[a.peer := PeerInfo(
        info.total,
        info.completed - One(a.state.Completed?) + One(a'.state.Completed?),
        info.requested - One(a.state.Requested?) + One(a'.state.Requested?))];
    }

    /** Takes one announcement out. */
    method EraseAt(i: nat)
      requires Consistent() && i < |index|
      modifies this
      ensures Consistent() && Anns() == old(Anns()) - {old(index[i])}
      ensures index == old(Without(index, i))
      ensures currentSequence == old(currentSequence) && log == old(log)
    {
      CountedWithout(Anns(), peerinfo, index[i]);
      WithoutOrdered(index, i);
      peerinfo := InfoWithout(peerinfo, index[i]);
      index := Without(index, i);
    }

    /** A delayed announcement becomes due. Only its successor in the order is looked at. */
    method PromoteCandidateReady(d: Announcement)
      requires Valid() && d in index && d.state.Delayed?
      modifies this
      ensures Valid() && Promoted(old(Anns()), d, Anns())
      ensures currentSequence == old(currentSequence) && log == old(log)
    {
      ghost var anns := Anns();
      UniqueElems(index);
      var r := To(d, Ready);
      Modify(d, r);
      var i := IndexOf(index, r);
      SuccessorTells(index, i);
      if i + 1 == |index| || index[i + 1].invid != r.invid || index[i + 1].state.Completed? {
        Modify(r, To(d, Best));
        PromotedAlone(anns, d);
      } else if index[i + 1].state.Best? {
        var o := index[i + 1];
        if r.priority > o.priority {
          Modify(o, To(o, Ready));
          assert r in Anns();
          Modify(r, To(d, Best));
          PromotedOver(anns, d, o);
        } else {
          PromotedUnder(anns, d, o);
        }
      } else {
        PromotedBehind(anns, d, index[i + 1]);
      }
      PromotedGood(anns, d, Anns());
    }

    /** Retires an announcement; if it was selected, its predecessor may take over. */
    method ChangeAndReselect(a: Announcement, state: State)
      requires Valid() && a in index && !a.state.Completed?
      requires state.Completed? || (state.Delayed? && a.IsSelectable())
      modifies this
      ensures Consistent() && Retired(old(Anns()), a, state, Anns())
      ensures currentSequence == old(currentSequence) && log == old(log)
    {
      ghost var anns := Anns();
      UniqueElems(index);
      var i := IndexOf(index, a);
      if a.IsSelected() {
        assert GoodGroup(OfInv(anns, a.invid)) && a in OfInv(anns, a.invid);
        assert forall b :: b in index && b.invid == a.invid ==> b in OfInv(anns, a.invid);
        PredecessorTells(index, i);
        if i > 0 {
          var p := index[i - 1];
          if p.invid == a.invid && p.state.Ready? {
            assert BestReady(OfInv(anns, a.invid), p);
            Modify(p, To(p, Best));
            assert a in Anns();
          }
        }
      }
      Modify(a, To(a, state));
    }

    method IsOnlyNonCompleted(a: Announcement) returns (only: bool)
      requires Consistent() && a in index && !a.state.Completed?
      ensures only <==> forall b :: b in Anns() && b.invid == a.invid && b != a ==> b.state.Completed?
    {
      var i := IndexOf(index, a);
      NeighboursTell(index, i);
      if i > 0 && index[i - 1].invid == a.invid {
        return false;
      }
      if i + 1 < |index| && index[i + 1].invid == a.invid && !index[i + 1].state.Completed? {
        return false;
      }
      return true;
    }

    /** Completes an announcement, and forgets its invid when only completed ones would remain. */
    method MakeCompleted(a: Announcement) returns (remains: bool)
      requires Valid() && a in index
      modifies this
      ensures Valid() && currentSequence == old(currentSequence) && log == old(log)
      ensures Abs(Anns()) == Complete(Abs(old(Anns())), {KeyOf(a)})
      ensures remains <==> a.state.Completed? || !OnlyNonCompleted(old(Anns()), a)
      ensures remains <==> To(a, Completed) in Anns()
      ensures forall b: Announcement :: b.peer == a.peer && b != To(a, Completed) ==> (b in Anns() <==> b in old(Anns()) && b != a)
      ensures WaitingIn(Anns()) == WaitingIn(old(Anns())) - {a}
    {
      ghost var anns := Anns();
      UniqueElems(index);
      if a.state.Completed? {
        CompletedAlready(anns, a);
        return true;
      }
      var only := IsOnlyNonCompleted(a);
      if only {
        CompletedLast(anns, a);
        EraseFrom(a);
        GoodWithoutInv(anns, a.invid);
        return false;
      }
      ghost var o :| o in anns && o.invid == a.invid && o != a && !o.state.Completed?;
      CompletedOne(anns, a, o);
      ChangeAndReselect(a, Completed);
      RetiredAbs(anns, a, Completed, Anns());
      RetiredGood(anns, a, Completed, Anns());
      RetiredWaiting(anns, a, Completed, Anns());
      return true;
    }

    /** Erases an announcement and those following it in the order as long as they share its invid. */
    method EraseFrom(a: Announcement)
      requires Consistent() && a in index
      requires forall b :: b in index && b.invid == a.invid && b != a ==> b.state.Completed?
      requires !a.state.Completed?
      modifies this
      ensures Consistent() && Anns() == Forgotten(old(Anns()), a.invid)
      ensures currentSequence == old(currentSequence) && log == old(log)
    {
      var i := IndexOf(index, a);
      assert forall k :: 0 <= k < i ==> index[k].invid != a.invid by {
        assert forall k :: 0 <= k < i ==> Before(index[k], index[i]) && index[k] in index;
      }
      EraseBlock(i);
    }

    /** Erases from a position on while the invid stays the same. */
    method EraseBlock(i: nat)
      requires Consistent() && i < |index|
      requires forall k :: 0 <= k < i ==> index[k].invid != index[i].invid
      modifies this
      ensures Consistent() && Anns() == Forgotten(old(Anns()), old(index[i].invid))
      ensures currentSequence == old(currentSequence) && log == old(log)
    {
      var x := index[i].invid;
      BlockStarts(index, i);
      while i < |index| && index[i].invid == x
        invariant Consistent() && StartsAt(index, i, x)
        invariant currentSequence == old(currentSequence) && log == old(log)
        invariant Forgotten(Anns(), x) == Forgotten(old(Anns()), x)
        decreases |index|
      {
        BlockShrinks(index, i, x);
        ForgottenWithout(Anns(), index[i], x);
        EraseAt(i);
      }
      BlockGone(index, i, x);
    }

    // ---- Public operations ----

    /** The announcement of an invid by a peer, if there is one. */
    method Find(peer: NodeId, x: InvId) returns (found: bool, a: Announcement)
      requires UniqueKeys(index)
      ensures found ==> a in index && a.peer == peer && a.invid == x
      ensures !found ==> forall b :: b in index ==> b.peer != peer || b.invid != x
    {
      found, a := false, Announcement(x, peer, false, 0, 0, 0, Delayed);
      var i := 0;
      while i < |index|
        invariant i <= |index|
        invariant forall k :: 0 <= k < i ==> index[k].peer != peer || index[k].invid != x
      {
        if index[i].peer == peer && index[i].invid == x {
          return true, index[i];
        }
        i := i + 1;
      }
    }

    /** A peer announces an item. */
    method ReceivedInv(peer: NodeId, x: InvId, preferred: bool, reqtime: int)
      requires Valid()
      modifies this
      ensures Valid() && log == old(log)
      ensures if exists a :: a in old(Anns()) && a.peer == peer && a.invid == x
              then Anns() == old(Anns()) && currentSequence == old(currentSequence)
              else Anns() == old(Anns()) + {Announcement(x, peer, preferred, ComputePriority(salt, x, peer, preferred),
                                                         old(currentSequence), reqtime, Delayed)}
                   && currentSequence == old(currentSequence) + 1
    {
      var found, _ := Find(peer, x);
      if found {
        return;
      }
      var d := Announcement(x, peer, preferred, ComputePriority(salt, x, peer, preferred),
                            currentSequence, reqtime, Delayed);
      GoodAdd(Anns(), d);
      CountedWith(Anns(), peerinfo, d);
      var j := Place(index, d);
      WithOrdered(index, j, d);
      index := With(index, j, d);
      var was := if peer in peerinfo then peerinfo[peer] else PeerInfo(0, 0, 0);
      peerinfo := peerinfo[peer := was.(total := was.total + 1)];
      currentSequence := currentSequence + 1;
    }

    /** An item is no longer needed. */
    method ForgetInvId(x: InvId)
      requires Valid()
      modifies this
      ensures Valid() && Anns() == Forgotten(old(Anns()), x)
      ensures currentSequence == old(currentSequence) && log == old(log)
    {
      GoodWithoutInv(Anns(), x);
      var i := 0;
      while i < |index| && index[i].invid < x
        invariant i <= |index|
        invariant forall k :: 0 <= k < i ==> index[k].invid != x
      {
        i := i + 1;
      }
      if i < |index| && index[i].invid == x {
        EraseBlock(i);
      } else {
        forall b | b in index
          ensures b.invid != x
        {
          var k :| 0 <= k < |index| && index[k] == b;
          assert i < k ==> Before(index[i], index[k]);
        }
      }
    }

    /** A response, or a failure to respond, came from a peer. */
    method ReceivedResponse(peer: NodeId, x: InvId)
      requires Valid()
      modifies this
      ensures Valid() && currentSequence == old(currentSequence) && log == old(log)
      ensures Abs(Anns()) == Complete(Abs(old(Anns())), {(peer, x)})
    {
      UniqueElems(index);
      var found, a := Find(peer, x);
      if found {
        var _ := MakeCompleted(a);
      } else {
        assert forall b :: b in Abs(Anns()) ==> Marked(b, {(peer, x)}) == b;
        CompletedNone(Anns(), {(peer, x)});
      }
    }

    /** The first announcement in (wait state, time) order; any one among equals. */
    method FirstByTime() returns (a: Announcement)
      requires index != []
      ensures a in index && forall b :: b in index ==> TimeBefore(a, b)
    {
      a := index[0];
      for i := 1 to |index|
        invariant a in index && forall k :: 0 <= k < i ==> TimeBefore(a, index[k])
      {
        if !TimeBefore(a, index[i]) {
          a := index[i];
        }
      }
    }

    method LastByTime() returns (a: Announcement)
      requires index != []
      ensures a in index && forall b :: b in index ==> TimeBefore(b, a)
    {
      a := index[0];
      for i := 1 to |index|
        invariant a in index && forall k :: 0 <= k < i ==> TimeBefore(index[k], a)
      {
        if !TimeBefore(index[i], a) {
          a := index[i];
        }
      }
    }

    /** Brings the states in line with the clock, whichever way the clock moved. To a user only the
        overdue requests change: they are completed, and listed in the order they expired. */
    method SetTimePoint(now: int) returns (expired: seq<Key>)
      requires Valid()
      modifies this
      ensures Valid() && currentSequence == old(currentSequence) && log == old(log)
      ensures InTime(Anns(), now)
      ensures Abs(Anns()) == Complete(Abs(old(Anns())), Overdue(Abs(old(Anns())), now))
      ensures Lists(expired, Overdue(Abs(old(Anns())), now))
    {
      expired := AdvanceWaiting(now);
      ReturnEarly(now);
    }

    /** First pass: everything waiting whose time has come. */
    method AdvanceWaiting(now: int) returns (expired: seq<Key>)
      requires Valid()
      modifies this
      ensures Valid() && currentSequence == old(currentSequence) && log == old(log)
      ensures forall a :: a in Anns() && a.IsWaiting() ==> a.time > now
      ensures Abs(Anns()) == Complete(Abs(old(Anns())), Overdue(Abs(old(Anns())), now))
      ensures Lists(expired, Overdue(Abs(old(Anns())), now))
    {
      ghost var spec := Abs(Anns());
      ghost var done: set<Key> := {};
      expired := [];
      CompletedNone(Anns(), {});
      while index != []
        invariant Valid() && currentSequence == old(currentSequence) && log == old(log)
        invariant Expiring(spec, now, Abs(Anns()), done) && Lists(expired, done)
        decreases WaitingIn(Anns())
      {
        var a := FirstByTime();
        UniqueElems(index);
        ghost var anns := Anns();
        assert a.IsWaiting() ==> a in WaitingIn(anns);
        if a.state.Delayed? && a.time <= now {
          PromoteCandidateReady(a);
          PromotedAbs(anns, a, Anns());
          PromotedWaiting(anns, a, Anns());
        } else if a.state.Requested? && a.time <= now {
          assert Plain(a) == a && a in Abs(anns);
          ExpireOne(spec, now, Abs(anns), done, a);
          ListsMore(expired, done, KeyOf(a));
          expired, done := expired + [KeyOf(a)], done + {KeyOf(a)};
          var _ := MakeCompleted(a);
        } else {
          break;
        }
      }
      NothingOverdue(Anns(), now);
      assert done == Overdue(spec, now);
    }

    /** Second pass: candidates whose time lies in the future again go back to waiting. */
    method ReturnEarly(now: int)
      requires Valid() && forall a :: a in Anns() && a.IsWaiting() ==> a.time > now
      modifies this
      ensures Valid() && currentSequence == old(currentSequence) && log == old(log)
      ensures InTime(Anns(), now) && Abs(Anns()) == Abs(old(Anns()))
    {
      while index != []
        invariant Valid() && currentSequence == old(currentSequence) && log == old(log)
        invariant forall a :: a in Anns() && a.IsWaiting() ==> a.time > now
        invariant Abs(Anns()) == Abs(old(Anns()))
        decreases EarlySequences(Anns(), now)
      {
        var a := LastByTime();
        if a.IsSelectable() && a.time > now {
          ghost var anns := Anns();
          UniqueElems(index);
          ChangeAndReselect(a, Delayed);
          RetiredAbs(anns, a, Delayed, Anns());
          RetiredGood(anns, a, Delayed, Anns());
          RetiredEarly(anns, a, Anns(), now);
          assert Plain(a) in Abs(anns);
          ReplaceSame(Abs(anns), Plain(a));
        } else {
          break;
        }
      }
    }

    /** A peer goes away: its announcements are completed and erased one by one, following the
        ByPeer order; the successor is chosen before the current one is touched. */
    method DisconnectedPeer(peer: NodeId)
      requires Valid()
      modifies this
      ensures Valid() && currentSequence == old(currentSequence) && log == old(log)
      ensures Abs(Anns()) == Disconnect(Abs(old(Anns())), KeysOf(Abs(old(Anns())), peer))
      ensures forall a :: a in Anns() ==> a.peer != peer
    {
      ghost var spec := Abs(Anns());
      ghost var done: set<Key> := {};
      DisconnectNothing(Anns());
      var more, it := FirstOfPeer(peer);
      while more
        invariant Valid() && currentSequence == old(currentSequence) && log == old(log)
        invariant Abs(Anns()) == Disconnect(spec, done)
        invariant KeysOf(Anns(), peer) == KeysOf(spec, peer) - done && done <= KeysOf(spec, peer)
        invariant if more then HeadOfPeer(Anns(), it, peer) else forall b :: b in Anns() ==> b.peer != peer
        decreases KeysOf(Anns(), peer)
      {
        UniqueElems(index);
        var more', next := NextOfPeer(it);
        ghost var anns := Anns();
        DisconnectMore(spec, done, KeyOf(it));
        DropOne(it);
        HeadMoves(anns, Anns(), it, more', next);
        done := done + {KeyOf(it)};
        more, it := more', next;
      }
      NoKeysLeft(Anns(), peer);
    }

    /** Completes one announcement and takes it out. */
    method DropOne(a: Announcement)
      requires Valid() && a in index
      modifies this
      ensures Valid() && currentSequence == old(currentSequence) && log == old(log)
      ensures Abs(Anns()) == Drop(Complete(Abs(old(Anns())), {KeyOf(a)}), {KeyOf(a)})
      ensures forall b: Announcement :: b.peer == a.peer ==> (b in Anns() <==> b in old(Anns()) && b != a)
    {
      UniqueElems(index);
      ghost var before := Anns();
      var remains := MakeCompleted(a);
      UniqueElems(index);
      AbsDrop(Anns(), KeyOf(a));
      OneKey(before, Anns(), a);
      if remains {
        GoodDrop(Anns(), To(a, Completed));
        var i := IndexOf(index, To(a, Completed));
        EraseAt(i);
      }
    }

    method FirstOfPeer(peer: NodeId) returns (found: bool, a: Announcement)
      requires UniqueKeys(index)
      ensures if found then HeadOfPeer(Anns(), a, peer) else forall b :: b in Anns() ==> b.peer != peer
    {
      found, a := false, Announcement(0, peer, false, 0, 0, 0, Delayed);
      for i := 0 to |index|
        invariant if found then HeadOfPeer(Elems(index[..i]), a, peer) else forall b :: b in index[..i] ==> b.peer != peer
      {
        assert index[..i + 1] == index[..i] + [index[i]];
        if index[i].peer == peer && (!found || PeerBefore(index[i], a)) {
          found, a := true, index[i];
        }
      }
      assert index[..|index|] == index;
    }

    method NextOfPeer(a: Announcement) returns (found: bool, next: Announcement)
      requires UniqueKeys(index) && a in index
      ensures if found then NextInPeer(Anns(), a, next) else forall b :: b in Anns() && b.peer == a.peer ==> !PeerBefore(a, b)
    {
      found, next := false, a;
      for i := 0 to |index|
        invariant if found then NextInPeer(Elems(index[..i]), a, next)
                  else forall b :: b in index[..i] && b.peer == a.peer ==> !PeerBefore(a, b)
      {
        assert index[..i + 1] == index[..i] + [index[i]];
        if index[i].peer == a.peer && PeerBefore(a, index[i]) && (!found || PeerBefore(index[i], next)) {
          found, next := true, index[i];
        }
      }
      assert index[..|index|] == index;
    }

    /** The caller sent a request for an item to a peer. */
    method RequestedData(peer: NodeId, x: InvId, expiry: int)
      requires Valid()
      modifies this
      ensures Valid() && currentSequence == old(currentSequence)
      ensures Abs(Anns()) == Request(Abs(old(Anns())), (peer, x), expiry)
      ensures forall a :: a in old(Anns()) && KeyOf(a) == (peer, x) && Plain(a).state.Delayed? ==>
                a.sequence !in old(log) && log == old(log) + [a.sequence]
      ensures (forall a :: a in old(Anns()) && KeyOf(a) == (peer, x) ==> !Plain(a).state.Delayed?) ==> log == old(log)
    {
      UniqueElems(index);
      var found, a := Find(peer, x);
      if !found || !(a.state.Delayed? || a.IsSelectable()) {
        NoCandidate(Anns(), (peer, x));
        return;
      }
      assert TrackedOne(a, salt, currentSequence, log);
      RequestCandidate(a, expiry);
    }

    method RequestCandidate(a: Announcement, expiry: int)
      requires Valid() && a in index && Plain(a).state.Delayed?
      modifies this
      ensures Valid() && currentSequence == old(currentSequence) && log == old(log) + [a.sequence]
      ensures Abs(Anns()) == Request(Abs(old(Anns())), KeyOf(a), expiry)
    {
      ghost var anns := Anns();
      UniqueElems(index);
      var a' := a.(state := Requested, time := expiry);
      assert a in OfInv(anns, a.invid) && GoodGroup(OfInv(anns, a.invid));
      if a.state.Best? {
        RequestBest(OfInv(anns, a.invid), a, a');
        GoodReplace(anns, a, a');
        SelectedAlone(anns, a);
        RequestAbsOne(anns, a, expiry);
      } else {
        var i := LowerBoundSelected(a.invid);
        if i < |index| && index[i].invid == a.invid && index[i].IsSelected() {
          var o := index[i];
          var o' := To(o, if o.state.Best? then Ready else Completed);
          RequestInstead(OfInv(anns, a.invid), o, a, a');
          GoodReplaceTwo(anns, o, o', a, a');
          RequestAbsInstead(anns, o, a, expiry);
          Modify(o, o');
          assert a in Anns();
        } else {
          RequestOther(OfInv(anns, a.invid), a, a');
          GoodReplace(anns, a, a');
          RequestAbsOne(anns, a, expiry);
        }
      }
      Modify(a, a');
    }

    /** The first position not before (invid, best, 0): where a selected announcement would be. */
    method LowerBoundSelected(x: InvId) returns (i: nat)
      requires Sorted(index)
      ensures i <= |index|
      ensures !(i < |index| && index[i].invid == x && index[i].IsSelected()) ==>
                forall b :: b in index && b.invid == x ==> !b.IsSelected()
    {
      i := 0;
      while i < |index| && (index[i].invid < x || (index[i].invid == x && index[i].Rank() < 2))
        invariant i <= |index|
        invariant forall k :: 0 <= k < i ==> index[k].invid != x || !index[k].IsSelected()
      {
        i := i + 1;
      }
      forall b | b in index && b.invid == x && b.IsSelected()
        ensures i < |index| && index[i].invid == x && index[i].IsSelected()
      {
        var k :| 0 <= k < |index| && index[k] == b;
        assert i < k ==> Before(index[i], index[k]);
      }
    }

    /** The items to ask a peer for now, in the order they were announced. */
    method GetRequestable(peer: NodeId, now: int) returns (items: seq<InvId>, expired: seq<Key>)
      requires Valid()
      modifies this
      ensures Valid() && currentSequence == old(currentSequence) && log == old(log)
      ensures InTime(Anns(), now)
      ensures Abs(Anns()) == Complete(Abs(old(Anns())), Overdue(Abs(old(Anns())), now))
      ensures Lists(expired, Overdue(Abs(old(Anns())), now))
      ensures forall x :: x in items <==> Offered(Anns(), peer, x)
      ensures forall i, j :: 0 <= i < j < |items| ==> AnnouncedBefore(Anns(), peer, items[i], items[j])
    {
      expired := SetTimePoint(now);
      UniqueElems(index);
      var selected := BestOf(index, peer);
      var sorted := SortBySequence(selected);
      OfferedInOrder(Anns(), peer, sorted);
      items := seq(|sorted|, i requires 0 <= i < |sorted| => sorted[i].invid);
      OfferedExactly(Anns(), peer, sorted, items);
    }

    // ---- Whole runs ----

    method Do(op: Op)
      requires Valid()
      modifies this
      ensures Valid() && old(log) <= log
      ensures Spec(Abs(Anns()), currentSequence) == Step(salt, Spec(Abs(old(Anns())), old(currentSequence)), op)
    {
      match op {
        case ReceivedInv(peer, x, preferred, reqtime) =>
          AbsWith(Anns(), peer, x);
          ReceivedInv(peer, x, preferred, reqtime);
        case Disconnected(peer) => DisconnectedPeer(peer);
        case Forget(x) =>
          AbsForgotten(Anns(), x);
          ForgetInvId(x);
        case GetRequestable(peer, now) => var _, _ := GetRequestable(peer, now);
        case RequestedData(peer, x, expiry) =>
          UniqueElems(index);
          RequestedData(peer, x, expiry);
        case ReceivedResponse(peer, x) => ReceivedResponse(peer, x);
      }
    }

    /** Any run of public operations keeps every invariant, behaves like the plain tracker, and
        never requests an announcement twice: the log only grows and never repeats. */
    method Run(ops: seq<Op>)
      requires Valid()
      modifies this
      ensures Valid() && old(log) <= log
      ensures forall i, j :: 0 <= i < j < |log| ==> log[i] != log[j]
      ensures Spec(Abs(Anns()), currentSequence) == Steps(salt, Spec(Abs(old(Anns())), old(currentSequence)), ops)
    {
      for i := 0 to |ops|
        invariant Valid() && old(log) <= log
        invariant Steps(salt, Spec(Abs(Anns()), currentSequence), ops[i..])
                  == Steps(salt, Spec(Abs(old(Anns())), old(currentSequence)), ops)
      {
        assert ops[i..][0] == ops[i] && ops[i..][1..] == ops[i + 1..];
        Do(ops[i]);
      }
    }

    // ---- Statistics ----

    method CountInFlight(peer: NodeId) returns (n: nat)
      requires Valid()
      ensures n == |Pick(Anns(), RequestedFrom(peer))|
    {
      assert CountedAt(Anns(), peerinfo, peer);
      RecountEmptyIf(Anns(), peer);
      n := if peer in peerinfo then peerinfo[peer].requested else 0;
    }

    method CountCandidates(peer: NodeId) returns (n: nat)
      requires Valid()
      ensures n == |Pick(Anns(), CandidateFrom(peer))|
    {
      assert CountedAt(Anns(), peerinfo, peer);
      RecountEmptyIf(Anns(), peer);
      CandidatesAreTheRest(Anns(), peer);
      n := if peer in peerinfo then peerinfo[peer].total - peerinfo[peer].requested - peerinfo[peer].completed else 0;
    }
  }

  datatype Op =
    | ReceivedInv(peer: NodeId, x: InvId, preferred: bool, reqtime: int)
    | Disconnected(peer: NodeId)
    | Forget(x: InvId)
    | GetRequestable(peer: NodeId, now: int)
    | RequestedData(peer: NodeId, x: InvId, expiry: int)
    | ReceivedResponse(peer: NodeId, x: InvId)

  /** The plain tracker: a set of announcements and the next sequence number. */
  datatype Spec = Spec(anns: Anns, next: nat)

  ghost function Step(salt: Salt, s: Spec, op: Op): Spec {
    match op
    case ReceivedInv(peer, x, preferred, reqtime) =>
      if exists a :: a in s.anns && KeyOf(a) == (peer, x) then s
      else Spec(s.anns + {Announcement(x, peer, preferred, ComputePriority(salt, x, peer, preferred), s.next, reqtime, Delayed)},
                s.next + 1)
    case Disconnected(peer) => s.(anns := Disconnect(s.anns, KeysOf(s.anns, peer)))
    case Forget(x) => s.(anns := Forgotten(s.anns, x))
    case GetRequestable(peer, now) => s.(anns := Complete(s.anns, Overdue(s.anns, now)))
    case RequestedData(peer, x, expiry) => s.(anns := Request(s.anns, (peer, x), expiry))
    case ReceivedResponse(peer, x) => s.(anns := Complete(s.anns, {(peer, x)}))
  }

  ghost function Steps(salt: Salt, s: Spec, ops: seq<Op>): Spec
    decreases |ops|
  {
    if ops == [] then s else Steps(salt, Step(salt, s, ops[0]), ops[1..])
  }

  lemma AbsWith(anns: Anns, peer: NodeId, x: InvId)
    ensures (exists a :: a in Abs(anns) && KeyOf(a) == (peer, x)) <==> (exists a :: a in anns && a.peer == peer && a.invid == x)
    ensures forall d: Announcement :: d.state.Delayed? ==> Abs(anns + {d}) == Abs(anns) + {d}
  {
    if a :| a in anns && a.peer == peer && a.invid == x {
      assert Plain(a) in Abs(anns);
    }
    forall d: Announcement | d.state.Delayed?
      ensures Abs(anns + {d}) == Abs(anns) + {d}
    {
      assert Plain(d) == d;
    }
  }

  ghost function CandidateFrom(p: NodeId): Announcement -> bool {
    (a: Announcement) => a.peer == p && !a.state.Completed? && !a.state.Requested?
  }

  lemma RecountEmptyIf(anns: Anns, p: NodeId)
    ensures Recount(anns, p).total == 0 ==> Recount(anns, p) == PeerInfo(0, 0, 0)
  {
    if Recount(anns, p).total == 0 {
      RecountEmpty(anns, p);
    }
  }

  lemma CandidatesAreTheRest(anns: Anns, p: NodeId)
    ensures |Pick(anns, CandidateFrom(p))| == Recount(anns, p).total - Recount(anns, p).requested - Recount(anns, p).completed
  {
    var rest, done, asked := Pick(anns, CandidateFrom(p)), Pick(anns, CompletedFrom(p)), Pick(anns, RequestedFrom(p));
    assert Pick(anns, FromPeer(p)) == (rest + done) + asked by {
      assert forall a :: a in Pick(anns, FromPeer(p)) <==> a in rest || a in done || a in asked;
    }
    DisjointCards(rest, done);
    DisjointCards(rest + done, asked);
  }

  lemma DisjointCards(a: Anns, b: Anns)
    requires a !! b
    ensures |a + b| == |a| + |b|
  {
  }

  // ---- What is offered to a peer ----

  ghost predicate Offered(anns: Anns, peer: NodeId, x: InvId) {
    exists a :: a in anns && KeyOf(a) == (peer, x) && a.state.Best?
  }

  ghost predicate AnnouncedBefore(anns: Anns, peer: NodeId, x: InvId, y: InvId) {
    exists a, b :: a in anns && b in anns && KeyOf(a) == (peer, x) && KeyOf(b) == (peer, y) && a.sequence < b.sequence
  }

  /** The best candidates of a peer, in the order of the index. */
  method BestOf(s: seq<Announcement>, peer: NodeId) returns (selected: seq<Announcement>)
    requires UniqueKeys(s)
    requires forall a, b :: a in s && b in s && a.sequence == b.sequence ==> a == b
    ensures forall a :: a in selected <==> a in s && a.peer == peer && a.state.Best?
    ensures DistinctSequences(selected)
  {
    selected := [];
    for i := 0 to |s|
      invariant forall a :: a in selected <==> a in s[..i] && a.peer == peer && a.state.Best?
      invariant DistinctSequences(selected)
    {
      assert s[..i + 1] == s[..i] + [s[i]];
      if s[i].peer == peer && s[i].state.Best? {
        NotSeenYet(s, i, selected);
        selected := selected + [s[i]];
      }
    }
    assert s[..|s|] == s;
  }

  lemma OfferedExactly(anns: Anns, peer: NodeId, s: seq<Announcement>, items: seq<InvId>)
    requires forall a :: a in s <==> a in anns && a.peer == peer && a.state.Best?
    requires |items| == |s| && forall i :: 0 <= i < |s| ==> items[i] == s[i].invid
    ensures forall x :: x in items <==> Offered(anns, peer, x)
  {
    forall x | x in items
      ensures Offered(anns, peer, x)
    {
      var i :| 0 <= i < |items| && items[i] == x;
      assert s[i] in s;
    }
    forall x: InvId | Offered(anns, peer, x)
      ensures x in items
    {
      var a :| a in anns && KeyOf(a) == (peer, x) && a.state.Best?;
      var i :| 0 <= i < |s| && s[i] == a;
      assert items[i] == x;
    }
  }

  lemma NotSeenYet(s: seq<Announcement>, i: nat, seen: seq<Announcement>)
    requires UniqueKeys(s) && i < |s| && DistinctSequences(seen)
    requires forall a :: a in seen ==> a in s[..i]
    requires forall a, b :: a in s && b in s && a.sequence == b.sequence ==> a == b
    ensures DistinctSequences(seen + [s[i]])
  {
    forall k | 0 <= k < |seen|
      ensures seen[k].sequence != s[i].sequence
    {
      assert seen[k] in seen;
      var m :| 0 <= m < i && s[m] == seen[k];
      assert s[m] != s[i];
    }
  }

  ghost predicate SequenceSorted(s: seq<Announcement>) {
    forall i, j :: 0 <= i < j < |s| ==> s[i].sequence < s[j].sequence
  }

  ghost predicate DistinctSequences(s: seq<Announcement>) {
    forall i, j :: 0 <= i < j < |s| ==> s[i].sequence != s[j].sequence
  }

  method SortBySequence(s: seq<Announcement>) returns (r: seq<Announcement>)
    requires DistinctSequences(s)
    ensures SequenceSorted(r) && forall a :: a in r <==> a in s
  {
    r := [];
    for i := 0 to |s|
      invariant SequenceSorted(r) && forall a :: a in r <==> a in s[..i]
    {
      var j: nat := |r|;
      while j > 0 && r[j - 1].sequence > s[i].sequence
        invariant j <= |r| && forall k :: j <= k < |r| ==> r[k].sequence > s[i].sequence
      {
        j := j - 1;
      }
      assert j > 0 ==> r[j - 1] in s[..i];
      InsertKeeps(r, j, s[i]);
      assert s[..i + 1] == s[..i] + [s[i]];
      r := With(r, j, s[i]);
    }
    assert s[..|s|] == s;
  }

  lemma InsertKeeps(r: seq<Announcement>, j: nat, a: Announcement)
    requires j <= |r| && SequenceSorted(r)
    requires j > 0 ==> r[j - 1].sequence < a.sequence
    requires forall k :: j <= k < |r| ==> r[k].sequence > a.sequence
    ensures SequenceSorted(With(r, j, a))
    ensures forall b :: b in With(r, j, a) <==> b in r || b == a
  {
    var w := With(r, j, a);
    assert forall k :: 0 <= k < |w| ==> w[k] == if k < j then r[k] else if k == j then a else r[k - 1];
    forall k | 0 <= k < j
      ensures r[k].sequence < a.sequence
    {
      assert k < j - 1 ==> r[k].sequence < r[j - 1].sequence;
    }
    WithElems(r, j, a);
  }

  lemma WithElems(r: seq<Announcement>, j: nat, a: Announcement)
    requires j <= |r|
    ensures forall b :: b in With(r, j, a) <==> b in r || b == a
  {
    var w := With(r, j, a);
    forall b | b in r
      ensures b in w
    {
      var k :| 0 <= k < |r| && r[k] == b;
      assert w[if k < j then k else k + 1] == b;
    }
    assert w[j] == a;
  }

  lemma OfferedInOrder(anns: Anns, peer: NodeId, s: seq<Announcement>)
    requires SequenceSorted(s)
    requires forall a :: a in s ==> a in anns && a.peer == peer
    ensures forall i, j :: 0 <= i < j < |s| ==> AnnouncedBefore(anns, peer, s[i].invid, s[j].invid)
  {
    forall i, j | 0 <= i < j < |s|
      ensures AnnouncedBefore(anns, peer, s[i].invid, s[j].invid)
    {
      assert s[i] in s && s[j] in s;
      assert s[i].sequence < s[j].sequence;
    }
  }

  /** A candidate whose time has come, with no request outstanding and no better such candidate. */
  ghost predicate IsTop(spec: Anns, now: int, c: Announcement) {
    && c in spec && c.state.Delayed? && c.time <= now
    && (forall b :: b in spec && b.invid == c.invid ==> !b.state.Requested?)
    && (forall b :: b in spec && b.invid == c.invid && b.state.Delayed? && b.time <= now ==> b.priority <= c.priority)
  }

  /** What is offered, in a user's terms: only the best due candidates without an outstanding
      request; a candidate that beats all others is offered; and some candidate always is. */
  lemma OfferedMeans(anns: Anns, now: int, peer: NodeId, x: InvId)
    requires Good(anns) && UniqueIn(anns) && InTime(anns, now)
    ensures Offered(anns, peer, x) ==> exists c :: IsTop(Abs(anns), now, c) && KeyOf(c) == (peer, x)
    ensures forall c :: IsTop(Abs(anns), now, c) && KeyOf(c) == (peer, x)
              && (forall b :: b in Abs(anns) && b.invid == x && b.state.Delayed? && b.time <= now && b != c ==> b.priority < c.priority)
              ==> Offered(anns, peer, x)
  {
    if a :| a in anns && KeyOf(a) == (peer, x) && a.state.Best? {
      BestIsTop(anns, now, a);
    }
    forall c | IsTop(Abs(anns), now, c) && KeyOf(c) == (peer, x)
               && (forall b :: b in Abs(anns) && b.invid == x && b.state.Delayed? && b.time <= now && b != c ==> b.priority < c.priority)
      ensures Offered(anns, peer, x)
    {
      var a := SomeoneIsBest(anns, now, c);
      BestIsTop(anns, now, a);
    }
  }

  lemma BestIsTop(anns: Anns, now: int, a: Announcement)
    requires Good(anns) && InTime(anns, now) && a in anns && a.state.Best?
    ensures IsTop(Abs(anns), now, Plain(a))
  {
    var g := OfInv(anns, a.invid);
    assert a in g && GoodGroup(g);
    forall c | c in Abs(anns) && c.invid == a.invid
      ensures !c.state.Requested? && (c.state.Delayed? && c.time <= now ==> c.priority <= a.priority)
    {
      var b :| b in anns && Plain(b) == c;
      assert b in g;
    }
  }

  /** As long as a due candidate is left and nothing is outstanding, the item is offered to someone. */
  lemma SomeoneIsBest(anns: Anns, now: int, c: Announcement) returns (a: Announcement)
    requires Good(anns) && InTime(anns, now)
    requires c in Abs(anns) && c.state.Delayed? && c.time <= now
    requires forall b :: b in Abs(anns) && b.invid == c.invid ==> !b.state.Requested?
    ensures a in anns && a.state.Best? && a.invid == c.invid && a.priority >= c.priority
  {
    var b :| b in anns && Plain(b) == c;
    var g := OfInv(anns, c.invid);
    assert b in g && GoodGroup(g);
    if b.state.Ready? {
      a :| a in g && a.IsSelected();
      assert Plain(a) in Abs(anns);
    } else {
      a := b;
    }
  }

  /** No item is offered to two peers. */
  lemma OneOffer(anns: Anns, x: InvId, p: NodeId, q: NodeId)
    requires Good(anns) && Offered(anns, p, x) && Offered(anns, q, x)
    ensures p == q
  {
    var a :| a in anns && KeyOf(a) == (p, x) && a.state.Best?;
    var b :| b in anns && KeyOf(b) == (q, x) && b.state.Best?;
    SelectedAlone(anns, a);
  }

  /** Preferred peers go first. */
  lemma PreferredFirst(anns: Anns, salt: Salt, next: nat, log: seq<nat>, now: int, c: Announcement, b: Announcement)
    requires Tracked(anns, salt, next, log) && IsTop(Abs(anns), now, c)
    requires b in Abs(anns) && b.invid == c.invid && b.state.Delayed? && b.time <= now && b.preferred
    ensures c.preferred
  {
    var a :| a in anns && Plain(a) == c;
    var d :| d in anns && Plain(d) == b;
    assert TrackedOne(a, salt, next, log) && TrackedOne(d, salt, next, log);
  }

  /** Among peers that are both preferred or both not, the salted hash decides. */
  lemma HashDecides(anns: Anns, salt: Salt, next: nat, log: seq<nat>, now: int, c: Announcement, b: Announcement)
    requires Tracked(anns, salt, next, log) && IsTop(Abs(anns), now, c)
    requires b in Abs(anns) && b.invid == c.invid && b.state.Delayed? && b.time <= now && b.preferred == c.preferred
    ensures salt(b.invid, b.peer) % 0x1_0000_0000_0000_0000 / 2 <= salt(c.invid, c.peer) % 0x1_0000_0000_0000_0000 / 2
  {
    var a :| a in anns && Plain(a) == c;
    var d :| d in anns && Plain(d) == b;
    assert TrackedOne(a, salt, next, log) && TrackedOne(d, salt, next, log);
  }

  // ---- Requests, seen from outside ----

  lemma NoCandidate(anns: Anns, k: Key)
    requires forall a :: a in anns && KeyOf(a) == k ==> a.state.Requested? || a.state.Completed?
    ensures forall expiry :: Request(Abs(anns), k, expiry) == Abs(anns)
  {
  }

  lemma RequestAbsOne(anns: Anns, a: Announcement, expiry: int)
    requires UniqueIn(anns) && a in anns && Plain(a).state.Delayed?
    requires forall b :: b in anns && b.invid == a.invid && b.IsSelected() ==> b == a
    ensures Abs(Replace(anns, a, a.(state := Requested, time := expiry))) == Request(Abs(anns), KeyOf(a), expiry)
  {
    var a' := a.(state := Requested, time := expiry);
    AbsReplace(anns, a, a');
    AbsUnique(anns);
    assert RequestedOne(Plain(a), KeyOf(a), expiry) == a';
    forall c | c in Abs(anns) && c != Plain(a)
      ensures RequestedOne(c, KeyOf(a), expiry) == c
    {
      var b :| b in anns && Plain(b) == c;
    }
  }

  lemma SelectedAlone(anns: Anns, o: Announcement)
    requires Good(anns) && o in anns && o.IsSelected()
    ensures forall b :: b in anns && b.invid == o.invid && b.IsSelected() ==> b == o
  {
    assert o in OfInv(anns, o.invid) && GoodGroup(OfInv(anns, o.invid));
    assert forall b :: b in anns && b.invid == o.invid ==> b in OfInv(anns, o.invid);
  }

  lemma RequestAbsInstead(anns: Anns, o: Announcement, a: Announcement, expiry: int)
    requires Good(anns) && UniqueIn(anns) && a in anns && (a.state.Delayed? || a.state.Ready?)
    requires o in anns && o.invid == a.invid && o.IsSelected()
    ensures var o' := To(o, if o.state.Best? then Ready else Completed);
            Abs(Replace(Replace(anns, o, o'), a, a.(state := Requested, time := expiry)))
            == Request(Abs(anns), KeyOf(a), expiry)
  {
    var o' := To(o, if o.state.Best? then Ready else Completed);
    var a' := a.(state := Requested, time := expiry);
    AbsReplace(anns, o, o');
    AbsReplace(Replace(anns, o, o'), a, a');
    assert Plain(a) in Abs(anns) && Plain(o) in Abs(anns);
    SelectedAlone(anns, o);
    OthersKept(anns, o, a, expiry);
    RequestSwap(Abs(anns), Plain(a), a', Plain(o), Plain(o'), KeyOf(a), expiry);
  }

  lemma OthersKept(anns: Anns, o: Announcement, a: Announcement, expiry: int)
    requires UniqueIn(anns) && a in anns
    requires forall b :: b in anns && b.invid == a.invid && b.IsSelected() ==> b == o
    ensures forall c :: c in Abs(anns) && c != Plain(a) && c != Plain(o) ==> RequestedOne(c, KeyOf(a), expiry) == c
  {
    forall c | c in Abs(anns) && c != Plain(a) && c != Plain(o)
      ensures RequestedOne(c, KeyOf(a), expiry) == c
    {
      var b :| b in anns && Plain(b) == c;
    }
  }

  lemma RequestSwap(anns: Anns, a: Announcement, a': Announcement, o: Announcement, o': Announcement, k: Key, expiry: int)
    requires a in anns && o in anns && a != o && a.state.Delayed? && KeyOf(a) == k && a != o'
    requires RequestedOne(a, k, expiry) == a' && RequestedOne(o, k, expiry) == o'
    requires forall c :: c in anns && c != a && c != o ==> RequestedOne(c, k, expiry) == c
    ensures Request(anns, k, expiry) == Replace(Replace(anns, o, o'), a, a')
  {
    forall c | c in Replace(Replace(anns, o, o'), a, a')
      ensures c in Request(anns, k, expiry)
    {
      if c != a' && c != o' {
        assert RequestedOne(c, k, expiry) == c;
      }
    }
    forall c | c in Request(anns, k, expiry)
      ensures c in Replace(Replace(anns, o, o'), a, a')
    {
      var b :| b in anns && RequestedOne(b, k, expiry) == c;
    }
  }

  /** The order of the ByPeer index among announcements of one peer. */
  predicate PeerBefore(a: Announcement, b: Announcement) {
    (!a.state.Best? && b.state.Best?) || (a.state.Best? == b.state.Best? && a.invid < b.invid)
  }

  ghost predicate HeadOfPeer(anns: Anns, a: Announcement, peer: NodeId) {
    && a in anns && a.peer == peer
    && (forall b :: b in anns && b.peer == peer ==> !PeerBefore(b, a))
  }

  ghost predicate NextInPeer(anns: Anns, a: Announcement, next: Announcement) {
    && next in anns && next.peer == a.peer && PeerBefore(a, next)
    && (forall b :: b in anns && b.peer == a.peer && PeerBefore(a, b) ==> !PeerBefore(b, next))
  }

  lemma HeadMoves(anns: Anns, anns': Anns, a: Announcement, more: bool, next: Announcement)
    requires UniqueIn(anns) && HeadOfPeer(anns, a, a.peer)
    requires if more then NextInPeer(anns, a, next) else forall b :: b in anns && b.peer == a.peer ==> !PeerBefore(a, b)
    requires forall b: Announcement :: b.peer == a.peer ==> (b in anns' <==> b in anns && b != a)
    ensures if more then HeadOfPeer(anns', next, a.peer) else forall b :: b in anns' ==> b.peer != a.peer
    ensures KeysOf(anns', a.peer) == KeysOf(anns, a.peer) - {KeyOf(a)}
    ensures KeyOf(a) in KeysOf(anns, a.peer)
  {
    forall b | b in anns' && b.peer == a.peer
      ensures PeerBefore(a, b)
    {
    }
    forall k | k in KeysOf(anns, a.peer) && k != KeyOf(a)
      ensures k in KeysOf(anns', a.peer)
    {
      var b :| b in anns && b.peer == a.peer && KeyOf(b) == k;
      assert b in anns';
    }
  }

  lemma DisconnectNothing(anns: Anns)
    requires Good(anns)
    ensures Disconnect(Abs(anns), {}) == Abs(anns)
    ensures forall peer: NodeId :: KeysOf(Abs(anns), peer) == KeysOf(anns, peer)
  {
    forall c: Announcement
      ensures c in Disconnect(Abs(anns), {}) <==> c in Abs(anns)
    {
      DisconnectAt(Abs(anns), {}, c);
      if c in Abs(anns) {
        var b :| b in anns && Plain(b) == c;
        GoodLive(anns, b);
      }
    }
    forall peer: NodeId
      ensures KeysOf(Abs(anns), peer) == KeysOf(anns, peer)
    {
      AbsKeys(anns, peer);
    }
  }

  lemma AbsKeys(anns: Anns, peer: NodeId)
    ensures KeysOf(Abs(anns), peer) == KeysOf(anns, peer)
  {
    forall k | k in KeysOf(anns, peer)
      ensures k in KeysOf(Abs(anns), peer)
    {
      var b :| b in anns && b.peer == peer && KeyOf(b) == k;
      assert Plain(b) in Abs(anns);
    }
  }

  lemma NoKeysLeft(anns: Anns, peer: NodeId)
    requires forall b :: b in anns ==> b.peer != peer
    ensures KeysOf(anns, peer) == {}
  {
  }

  lemma AbsDrop(anns: Anns, k: Key)
    ensures Drop(Abs(anns), {k}) == Abs(Drop(anns, {k}))
  {
    forall c | c in Drop(Abs(anns), {k})
      ensures c in Abs(Drop(anns, {k}))
    {
      var b :| b in anns && Plain(b) == c;
      assert b in Drop(anns, {k});
    }
  }

  /** Only the completed announcement itself can still carry its key. */
  lemma OneKey(before: Anns, after: Anns, a: Announcement)
    requires UniqueIn(before) && UniqueIn(after) && a in before
    requires forall b: Announcement :: b.peer == a.peer && b != To(a, Completed) ==> (b in after <==> b in before && b != a)
    ensures Drop(after, {KeyOf(a)}) == after - {To(a, Completed)}
  {
  }

  ghost function EarlySequences(anns: Anns, now: int): set<nat> {
    set a | a in anns && a.IsSelectable() && a.time > now :: a.sequence
  }

  lemma RetiredEarly(anns: Anns, a: Announcement, anns': Anns, now: int)
    requires a in anns && a.IsSelectable() && a.time > now && Retired(anns, a, Delayed, anns')
    requires forall b, c :: b in anns && c in anns && b.sequence == c.sequence ==> b == c
    requires forall b :: b in anns && b.IsWaiting() ==> b.time > now
    ensures EarlySequences(anns', now) < EarlySequences(anns, now)
    ensures forall b :: b in anns' && b.IsWaiting() ==> b.time > now
  {
    var early, early' := EarlySequences(anns, now), EarlySequences(anns', now);
    forall q | q in early'
      ensures q in early && q != a.sequence
    {
      var b :| b in anns' && b.IsSelectable() && b.time > now && b.sequence == q;
      if b !in anns {
        var p :| p in anns && b == To(p, Best) && p.state.Ready?;
      }
    }
    assert a.sequence in early;
  }

  function WaitRank(a: Announcement): nat {
    if a.IsWaiting() then 0 else if a.IsSelectable() then 2 else 1
  }

  /** The order of the ByTime index. */
  predicate TimeBefore(a: Announcement, b: Announcement) {
    WaitRank(a) < WaitRank(b) || (WaitRank(a) == WaitRank(b) && a.time <= b.time)
  }

  /** Waiting announcements lie in the future and selectable ones do not. */
  ghost predicate InTime(anns: Anns, now: int) {
    forall a :: a in anns ==> (a.IsWaiting() ==> a.time > now) && (a.IsSelectable() ==> a.time <= now)
  }

  /** Some of the overdue requests have been completed; the others are still to come. */
  ghost predicate Expiring(spec: Anns, now: int, current: Anns, done: set<Key>) {
    && current == Complete(spec, done)
    && done <= Overdue(spec, now)
    && Overdue(current, now) == Overdue(spec, now) - done
  }

  ghost predicate Lists(s: seq<Key>, elems: set<Key>) {
    && (forall k :: k in s <==> k in elems)
    && (forall i, j :: 0 <= i < j < |s| ==> s[i] != s[j])
  }

  lemma ListsMore(s: seq<Key>, elems: set<Key>, k: Key)
    requires Lists(s, elems) && k !in elems
    ensures Lists(s + [k], elems + {k})
  {
  }

  lemma ExpireOne(spec: Anns, now: int, current: Anns, done: set<Key>, a: Announcement)
    requires Expiring(spec, now, current, done)
    requires a in current && a.state.Requested? && a.time <= now
    ensures KeyOf(a) !in done
    ensures Expiring(spec, now, Complete(current, {KeyOf(a)}), done + {KeyOf(a)})
  {
    assert KeyOf(a) in Overdue(current, now);
    OverdueComplete(current, KeyOf(a), now);
    CompleteMore(spec, done, KeyOf(a));
  }

  lemma NothingOverdue(anns: Anns, now: int)
    requires forall b :: b in anns && b.IsWaiting() ==> b.time > now
    ensures Overdue(Abs(anns), now) == {}
  {
  }

  ghost function WaitingIn(anns: Anns): Anns {
    set a | a in anns && a.IsWaiting()
  }

  lemma RetiredWaiting(anns: Anns, a: Announcement, state: State, anns': Anns)
    requires UniqueIn(anns) && a in anns && Retired(anns, a, state, anns') && state.Completed?
    ensures WaitingIn(anns') == WaitingIn(anns) - {a}
  {
  }

  lemma PromotedWaiting(anns: Anns, d: Announcement, anns': Anns)
    requires d in anns && d.state.Delayed? && Promoted(anns, d, anns')
    ensures WaitingIn(anns') == WaitingIn(anns) - {d}
  {
  }

  ghost predicate OnlyNonCompleted(anns: Anns, a: Announcement) {
    forall b :: b in anns && b.invid == a.invid && b != a ==> b.state.Completed?
  }

  ghost function Forgotten(anns: Anns, x: InvId): Anns {
    set b | b in anns && b.invid != x
  }

  lemma ForgottenWithout(anns: Anns, a: Announcement, x: InvId)
    requires a.invid == x
    ensures Forgotten(anns - {a}, x) == Forgotten(anns, x)
  {
  }

  /** All announcements of an invid sit from position `i` on, with nothing smaller behind it. */
  ghost predicate StartsAt(s: seq<Announcement>, i: nat, x: InvId) {
    && i <= |s|
    && (forall k :: 0 <= k < i ==> s[k].invid != x)
    && (forall k :: i <= k < |s| ==> s[k].invid >= x)
  }

  lemma BlockStarts(s: seq<Announcement>, i: nat)
    requires Sorted(s) && i < |s| && forall k :: 0 <= k < i ==> s[k].invid != s[i].invid
    ensures StartsAt(s, i, s[i].invid)
  {
    assert forall k :: i < k < |s| ==> Before(s[i], s[k]);
  }

  lemma BlockShrinks(s: seq<Announcement>, i: nat, x: InvId)
    requires StartsAt(s, i, x) && i < |s|
    ensures StartsAt(Without(s, i), i, x)
  {
  }

  lemma BlockGone(s: seq<Announcement>, i: nat, x: InvId)
    requires Sorted(s) && StartsAt(s, i, x) && (i == |s| || s[i].invid != x)
    ensures Elems(s) == Forgotten(Elems(s), x)
  {
    forall b | b in s
      ensures b.invid != x
    {
      var k :| 0 <= k < |s| && s[k] == b;
      assert i < k ==> Before(s[i], s[k]);
    }
  }

  // ---- From the neighbour test to the outcome of a promotion ----

  lemma PromotedAlone(anns: Anns, d: Announcement)
    requires UniqueIn(anns) && d in anns && d.state.Delayed?
    requires forall b :: b in Replace(anns, d, To(d, Ready)) && b.invid == d.invid ==> !b.IsSelected()
    ensures Promoted(anns, d, Replace(Replace(anns, d, To(d, Ready)), To(d, Ready), To(d, Best)))
  {
    assert forall b :: b in OfInv(anns, d.invid) && b != d ==> b in Replace(anns, d, To(d, Ready));
    assert Replace(Replace(anns, d, To(d, Ready)), To(d, Ready), To(d, Best)) == Replace(anns, d, To(d, Best));
  }

  lemma PromotedOver(anns: Anns, d: Announcement, o: Announcement)
    requires UniqueIn(anns) && d in anns && d.state.Delayed?
    requires o in Replace(anns, d, To(d, Ready)) && o.invid == d.invid && o.state.Best? && o.priority < d.priority
    ensures Promoted(anns, d, Replace(Replace(Replace(anns, d, To(d, Ready)), o, To(o, Ready)), To(d, Ready), To(d, Best)))
  {
    assert o in OfInv(anns, d.invid);
    assert Replace(Replace(Replace(anns, d, To(d, Ready)), o, To(o, Ready)), To(d, Ready), To(d, Best)) ==
           Replace(Replace(anns, o, To(o, Ready)), d, To(d, Best));
  }

  lemma PromotedUnder(anns: Anns, d: Announcement, a: Announcement)
    requires d in anns && d.state.Delayed?
    requires a in Replace(anns, d, To(d, Ready)) && a.invid == d.invid && a.IsSelected()
    requires a.state.Best? ==> a.priority >= d.priority
    ensures Promoted(anns, d, Replace(anns, d, To(d, Ready)))
  {
    assert a in OfInv(anns, d.invid);
  }

  /** Behind another ready announcement, or behind a request. */
  lemma PromotedBehind(anns: Anns, d: Announcement, n: Announcement)
    requires Good(anns) && UniqueIn(anns) && d in anns && d.state.Delayed?
    requires n in Replace(anns, d, To(d, Ready)) && n.invid == d.invid && n.peer != d.peer
    requires n.state.Requested? || (n.state.Ready? && n.priority >= d.priority)
    ensures Promoted(anns, d, Replace(anns, d, To(d, Ready)))
  {
    var g := OfInv(anns, d.invid);
    assert n in g && GoodGroup(g);
    var a :| a in g && a.IsSelected();
    PromotedUnder(anns, d, a);
  }
}
