/** The tracker as its users see it: announcements are candidates, requested or completed, and an
    invid left with completed announcements only is forgotten at once.

    Candidates are written with the state `Delayed` here; the split of candidates into delayed,
    ready and best ones is the implementation's own. */
module InvSpec {
  import opened InvAnnouncements
  import opened InvGroups

  type Key = (NodeId, InvId)

  function KeyOf(a: Announcement): Key { (a.peer, a.invid) }

  function Plain(a: Announcement): Announcement {
    if a.IsSelectable() then To(a, Delayed) else a
  }

  ghost function Abs(anns: Anns): Anns {
    set a | a in anns :: Plain(a)
  }

  ghost predicate Live(anns: Anns, x: InvId) {
    exists b :: b in anns && b.invid == x && !b.state.Completed?
  }

  /** Forgets the invids with completed announcements only. */
  ghost function Prune(anns: Anns): Anns {
    set b | b in anns && Live(anns, b.invid)
  }

  function Marked(b: Announcement, keys: set<Key>): Announcement {
    if KeyOf(b) in keys then To(b, Completed) else b
  }

  ghost function Mark(anns: Anns, keys: set<Key>): Anns {
    set b | b in anns :: Marked(b, keys)
  }

  ghost function Drop(anns: Anns, keys: set<Key>): Anns {
    set b | b in anns && KeyOf(b) !in keys
  }

  // ---- The operations ----

  ghost function Complete(anns: Anns, keys: set<Key>): Anns {
    Prune(Mark(anns, keys))
  }

  ghost function Disconnect(anns: Anns, keys: set<Key>): Anns {
    Prune(Drop(anns, keys))
  }

  function RequestedOne(b: Announcement, k: Key, expiry: int): Announcement {
    if KeyOf(b) == k then b.(state := Requested, time := expiry)
    else if b.invid == k.1 && b.state.Requested? then To(b, Completed)
    else b
  }

  ghost function Request(anns: Anns, k: Key, expiry: int): Anns {
    if exists a :: a in anns && KeyOf(a) == k && a.state.Delayed?
    then set b | b in anns :: RequestedOne(b, k, expiry)
    else anns
  }

  ghost function KeysOf(anns: Anns, peer: NodeId): set<Key> {
    set a | a in anns && a.peer == peer :: KeyOf(a)
  }

  ghost function Overdue(anns: Anns, now: int): set<Key> {
    set a | a in anns && a.state.Requested? && a.time <= now :: KeyOf(a)
  }

  // ---- How a change of one announcement shows ----

  lemma AbsReplace(anns: Anns, a: Announcement, a': Announcement)
    requires UniqueIn(anns) && a in anns && KeyOf(a') == KeyOf(a)
    ensures Abs(Replace(anns, a, a')) == Replace(Abs(anns), Plain(a), Plain(a'))
    ensures UniqueIn(Replace(anns, a, a')) && Plain(a) in Abs(anns)
  {
    forall c | c in Replace(Abs(anns), Plain(a), Plain(a'))
      ensures c in Abs(Replace(anns, a, a'))
    {
      if c == Plain(a') {
        assert a' in Replace(anns, a, a');
      } else {
        var b :| b in anns && Plain(b) == c;
        assert b in Replace(anns, a, a');
      }
    }
    forall b | b in Replace(anns, a, a')
      ensures Plain(b) in Replace(Abs(anns), Plain(a), Plain(a'))
    {
      assert b != a' ==> KeyOf(Plain(b)) != KeyOf(Plain(a));
    }
  }

  lemma AbsUnique(anns: Anns)
    requires UniqueIn(anns)
    ensures UniqueIn(Abs(anns))
  {
  }

  lemma ReplaceSame(anns: Anns, a: Announcement)
    requires a in anns
    ensures Replace(anns, a, a) == anns
  {
  }

  /** Promotion is invisible. */
  lemma PromotedAbs(anns: Anns, d: Announcement, anns': Anns)
    requires UniqueIn(anns) && d in anns && d.state.Delayed? && Promoted(anns, d, anns')
    ensures Abs(anns') == Abs(anns)
  {
    if o :| o in OfInv(anns, d.invid) && o.state.Best? && anns' == Replace(Replace(anns, o, To(o, Ready)), d, To(d, Best)) {
      AbsReplace(anns, o, To(o, Ready));
      AbsReplace(Replace(anns, o, To(o, Ready)), d, To(d, Best));
      ReplaceSame(Abs(anns), Plain(o));
    } else if anns' == Replace(anns, d, To(d, Best)) {
      AbsReplace(anns, d, To(d, Best));
    } else {
      AbsReplace(anns, d, To(d, Ready));
    }
    ReplaceSame(Abs(anns), Plain(d));
  }

  /** Retiring shows at the retired announcement only, whoever takes over. */
  lemma RetiredAbs(anns: Anns, a: Announcement, state: State, anns': Anns)
    requires UniqueIn(anns) && a in anns && Retired(anns, a, state, anns')
    ensures Abs(anns') == Replace(Abs(anns), Plain(a), Plain(To(a, state)))
    ensures UniqueIn(anns') && To(a, state) in anns'
    ensures forall b: Announcement :: b.peer == a.peer && b != To(a, state) ==> (b in anns' <==> b in anns && b != a)
  {
    if p :| a.IsSelected() && BestReady(OfInv(anns, a.invid), p)
            && anns' == Replace(Replace(anns, p, To(p, Best)), a, To(a, state)) {
      AbsReplace(anns, p, To(p, Best));
      AbsReplace(Replace(anns, p, To(p, Best)), a, To(a, state));
      ReplaceSame(Abs(anns), Plain(p));
    } else {
      AbsReplace(anns, a, To(a, state));
    }
  }

  lemma AbsForgotten(anns: Anns, x: InvId)
    ensures Abs(set b | b in anns && b.invid != x) == (set b | b in Abs(anns) && b.invid != x)
  {
    var anns' := set b | b in anns && b.invid != x;
    forall c | c in Abs(anns) && c.invid != x
      ensures c in Abs(anns')
    {
      var b :| b in anns && Plain(b) == c;
      assert b in anns';
    }
  }

  // ---- Completing, expiring and disconnecting, one announcement at a time ----

  ghost predicate LiveBut(anns: Anns, keys: set<Key>, x: InvId) {
    exists b :: b in anns && b.invid == x && !b.state.Completed? && KeyOf(b) !in keys
  }

  lemma MarkLive(anns: Anns, keys: set<Key>, x: InvId)
    ensures Live(Mark(anns, keys), x) <==> LiveBut(anns, keys, x)
  {
    if b :| b in anns && b.invid == x && !b.state.Completed? && KeyOf(b) !in keys {
      assert Marked(b, keys) in Mark(anns, keys);
    }
  }

  lemma DropLive(anns: Anns, keys: set<Key>, x: InvId)
    ensures Live(Drop(anns, keys), x) <==> LiveBut(anns, keys, x)
  {
    if b :| b in anns && b.invid == x && !b.state.Completed? && KeyOf(b) !in keys {
      assert b in Drop(anns, keys);
    }
  }

  lemma CompleteAt(anns: Anns, keys: set<Key>, c: Announcement)
    ensures c in Complete(anns, keys) <==>
            exists b :: b in anns && Marked(b, keys) == c && LiveBut(anns, keys, b.invid)
  {
    MarkLive(anns, keys, c.invid);
  }

  lemma DisconnectAt(anns: Anns, keys: set<Key>, c: Announcement)
    ensures c in Disconnect(anns, keys) <==> c in anns && KeyOf(c) !in keys && LiveBut(anns, keys, c.invid)
  {
    DropLive(anns, keys, c.invid);
  }

  /** Completing one more announcement after some others, or all of them at once. */
  lemma CompleteMore(anns: Anns, keys: set<Key>, k: Key)
    ensures Complete(Complete(anns, keys), {k}) == Complete(anns, keys + {k})
  {
    forall c: Announcement
      ensures c in Complete(Complete(anns, keys), {k}) <==> c in Complete(anns, keys + {k})
    {
      CompleteMoreThere(anns, keys, k, c);
      CompleteMoreBack(anns, keys, k, c);
    }
  }

  lemma CompleteLive(anns: Anns, keys: set<Key>, k: Key, x: InvId)
    ensures LiveBut(Complete(anns, keys), {k}, x) <==> LiveBut(anns, keys + {k}, x)
  {
    if b :| b in anns && b.invid == x && !b.state.Completed? && KeyOf(b) !in keys + {k} {
      CompleteAt(anns, keys, b);
      assert Marked(b, keys) == b && b in Complete(anns, keys);
    }
    if c :| c in Complete(anns, keys) && c.invid == x && !c.state.Completed? && KeyOf(c) !in {k} {
      CompleteAt(anns, keys, c);
    }
  }

  lemma CompleteMoreThere(anns: Anns, keys: set<Key>, k: Key, c: Announcement)
    ensures c in Complete(Complete(anns, keys), {k}) ==> c in Complete(anns, keys + {k})
  {
    var some := Complete(anns, keys);
    CompleteAt(some, {k}, c);
    if d :| d in some && Marked(d, {k}) == c && LiveBut(some, {k}, d.invid) {
      CompleteLive(anns, keys, k, c.invid);
      CompleteAt(anns, keys, d);
      var b :| b in anns && Marked(b, keys) == d;
      assert Marked(b, keys + {k}) == c;
      CompleteAt(anns, keys + {k}, c);
    }
  }

  lemma CompleteMoreBack(anns: Anns, keys: set<Key>, k: Key, c: Announcement)
    ensures c in Complete(anns, keys + {k}) ==> c in Complete(Complete(anns, keys), {k})
  {
    CompleteAt(anns, keys + {k}, c);
    if b :| b in anns && Marked(b, keys + {k}) == c && LiveBut(anns, keys + {k}, b.invid) {
      CompleteLive(anns, keys, k, c.invid);
      CompleteAt(anns, keys, Marked(b, keys));
      assert Marked(Marked(b, keys), {k}) == c && LiveBut(anns, keys, b.invid);
      CompleteAt(Complete(anns, keys), {k}, c);
    }
  }

  /** Disconnecting from one more announcement: complete it, then take it out. */
  lemma DisconnectMore(anns: Anns, keys: set<Key>, k: Key)
    ensures Drop(Complete(Disconnect(anns, keys), {k}), {k}) == Disconnect(anns, keys + {k})
  {
    forall c: Announcement
      ensures c in Drop(Complete(Disconnect(anns, keys), {k}), {k}) <==> c in Disconnect(anns, keys + {k})
    {
      var some := Disconnect(anns, keys);
      CompleteAt(some, {k}, c);
      DisconnectAt(anns, keys, c);
      DisconnectAt(anns, keys + {k}, c);
      if b :| b in some && b.invid == c.invid && !b.state.Completed? && KeyOf(b) !in {k} {
        DisconnectAt(anns, keys, b);
      }
      if b :| b in anns && b.invid == c.invid && !b.state.Completed? && KeyOf(b) !in keys + {k} {
        DisconnectAt(anns, keys, b);
        assert LiveBut(anns, keys, c.invid);
      }
      assert KeyOf(c) != k ==> Marked(c, {k}) == c;
    }
  }

  lemma OverdueComplete(anns: Anns, k: Key, now: int)
    ensures Overdue(Complete(anns, {k}), now) == Overdue(anns, now) - {k}
  {
    forall h: Key
      ensures h in Overdue(Complete(anns, {k}), now) <==> h in Overdue(anns, now) && h != k
    {
      if c :| c in Complete(anns, {k}) && c.state.Requested? && c.time <= now && KeyOf(c) == h {
        CompleteAt(anns, {k}, c);
      }
      if b :| b in anns && b.state.Requested? && b.time <= now && KeyOf(b) == h && h != k {
        CompleteAt(anns, {k}, b);
        assert Marked(b, {k}) == b && LiveBut(anns, {k}, b.invid);
      }
    }
  }

  // ---- What a single completion does, seen from outside ----

  lemma GoodLive(anns: Anns, a: Announcement)
    requires Good(anns) && a in anns
    ensures LiveBut(Abs(anns), {}, a.invid)
  {
    assert a in OfInv(anns, a.invid) && GoodGroup(OfInv(anns, a.invid));
    var b :| b in OfInv(anns, a.invid) && !b.state.Completed?;
    assert Plain(b) in Abs(anns);
  }

  /** Marking what is completed already, or nothing at all, changes nothing. */
  lemma CompletedNone(anns: Anns, keys: set<Key>)
    requires Good(anns) && forall b :: b in Abs(anns) ==> Marked(b, keys) == b
    ensures Complete(Abs(anns), keys) == Abs(anns)
  {
    forall c: Announcement
      ensures c in Complete(Abs(anns), keys) <==> c in Abs(anns)
    {
      CompleteAt(Abs(anns), keys, c);
      if c in Abs(anns) {
        LiveStill(anns, keys, c);
      }
    }
  }

  lemma LiveStill(anns: Anns, keys: set<Key>, c: Announcement)
    requires Good(anns) && c in Abs(anns) && forall b :: b in Abs(anns) ==> Marked(b, keys) == b
    ensures LiveBut(Abs(anns), keys, c.invid)
  {
    var b :| b in anns && Plain(b) == c;
    GoodLive(anns, b);
    var d :| d in Abs(anns) && d.invid == c.invid && !d.state.Completed?;
    assert Marked(d, keys) == d;
  }

  lemma CompletedAlready(anns: Anns, a: Announcement)
    requires Good(anns) && UniqueIn(anns) && a in anns && a.state.Completed?
    ensures Complete(Abs(anns), {KeyOf(a)}) == Abs(anns)
  {
    forall b | b in Abs(anns)
      ensures Marked(b, {KeyOf(a)}) == b
    {
      var d :| d in anns && Plain(d) == b;
    }
    CompletedNone(anns, {KeyOf(a)});
  }

  lemma CompletedLast(anns: Anns, a: Announcement)
    requires Good(anns) && UniqueIn(anns) && a in anns
    requires forall b :: b in anns && b.invid == a.invid && b != a ==> b.state.Completed?
    ensures Complete(Abs(anns), {KeyOf(a)}) == Abs(set b | b in anns && b.invid != a.invid)
  {
    AbsForgotten(anns, a.invid);
    forall c: Announcement
      ensures c in Complete(Abs(anns), {KeyOf(a)}) <==> c in Abs(anns) && c.invid != a.invid
    {
      CompleteAt(Abs(anns), {KeyOf(a)}, c);
      if c in Abs(anns) && c.invid != a.invid {
        var b :| b in anns && Plain(b) == c;
        GoodLive(anns, b);
        assert Marked(c, {KeyOf(a)}) == c;
      }
    }
  }

  lemma CompletedOne(anns: Anns, a: Announcement, o: Announcement)
    requires Good(anns) && UniqueIn(anns) && a in anns && !a.state.Completed?
    requires o in anns && o.invid == a.invid && o != a && !o.state.Completed?
    ensures Complete(Abs(anns), {KeyOf(a)}) == Replace(Abs(anns), Plain(a), To(a, Completed))
  {
    AbsUnique(anns);
    assert Plain(a) in Abs(anns) && Plain(o) in Abs(anns);
    assert LiveBut(Abs(anns), {KeyOf(a)}, a.invid);
    forall c: Announcement
      ensures c in Complete(Abs(anns), {KeyOf(a)}) <==> c in Replace(Abs(anns), Plain(a), To(a, Completed))
    {
      CompletedOneAt(anns, a, c);
    }
  }

  lemma CompletedOneAt(anns: Anns, a: Announcement, c: Announcement)
    requires Good(anns) && UniqueIn(Abs(anns)) && a in anns && !a.state.Completed?
    requires Plain(a) in Abs(anns) && LiveBut(Abs(anns), {KeyOf(a)}, a.invid)
    ensures c in Complete(Abs(anns), {KeyOf(a)}) <==> c in Replace(Abs(anns), Plain(a), To(a, Completed))
  {
    CompleteAt(Abs(anns), {KeyOf(a)}, c);
    assert Marked(Plain(a), {KeyOf(a)}) == To(a, Completed);
    if c in Abs(anns) && c != Plain(a) {
      var b :| b in anns && Plain(b) == c;
      GoodLive(anns, b);
      assert Marked(c, {KeyOf(a)}) == c;
    }
  }
}
