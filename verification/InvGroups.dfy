/** What each kind of change does to the announcements of one invid. */
module InvGroups {
  import opened InvAnnouncements

  function To(a: Announcement, state: State): Announcement {
    a.(state := state)
  }

  lemma OfInvReplace(anns: Anns, a: Announcement, a': Announcement, y: InvId)
    requires a in anns && a'.invid == a.invid
    ensures OfInv(Replace(anns, a, a'), y) ==
            if y == a.invid then Replace(OfInv(anns, y), a, a') else OfInv(anns, y)
  {
  }

  /** A change within one invid cannot spoil the others. */
  lemma GoodReplace(anns: Anns, a: Announcement, a': Announcement)
    requires Good(anns) && a in anns && a'.invid == a.invid
    requires GoodGroup(Replace(OfInv(anns, a.invid), a, a'))
    ensures Good(Replace(anns, a, a'))
  {
    forall y: InvId
      ensures GoodGroup(OfInv(Replace(anns, a, a'), y))
    {
      OfInvReplace(anns, a, a', y);
    }
  }

  lemma GoodReplaceTwo(anns: Anns, o: Announcement, o': Announcement, a: Announcement, a': Announcement)
    requires Good(anns) && o in anns && a in Replace(anns, o, o')
    requires o'.invid == o.invid == a.invid == a'.invid
    requires GoodGroup(Replace(Replace(OfInv(anns, a.invid), o, o'), a, a'))
    ensures Good(Replace(Replace(anns, o, o'), a, a'))
  {
    forall y: InvId
      ensures GoodGroup(OfInv(Replace(Replace(anns, o, o'), a, a'), y))
    {
      OfInvReplace(anns, o, o', y);
      OfInvReplace(Replace(anns, o, o'), a, a', y);
    }
  }

  lemma GoodWithoutInv(anns: Anns, x: InvId)
    requires Good(anns)
    ensures Good(set b | b in anns && b.invid != x)
  {
    var anns' := set b | b in anns && b.invid != x;
    forall y: InvId
      ensures GoodGroup(OfInv(anns', y))
    {
      assert OfInv(anns', y) == if y == x then {} else OfInv(anns, y);
    }
  }

  lemma GoodDrop(anns: Anns, a: Announcement)
    requires Good(anns) && a in anns && a.state.Completed?
    ensures Good(anns - {a})
  {
    DropCompleted(OfInv(anns, a.invid), a);
    forall y: InvId
      ensures GoodGroup(OfInv(anns - {a}, y))
    {
      assert OfInv(anns - {a}, y) == if y == a.invid then OfInv(anns, y) - {a} else OfInv(anns, y);
    }
  }

  lemma GoodAdd(anns: Anns, d: Announcement)
    requires Good(anns) && d.state.Delayed?
    ensures Good(anns + {d})
  {
    AddDelayed(OfInv(anns, d.invid), d);
    forall y: InvId
      ensures GoodGroup(OfInv(anns + {d}, y))
    {
      assert OfInv(anns + {d}, y) == if y == d.invid then OfInv(anns, y) + {d} else OfInv(anns, y);
    }
  }

  // ---- A delayed announcement becomes due ----

  lemma PromoteAlone(g: Anns, d: Announcement)
    requires GoodGroup(g) && d in g && d.state.Delayed?
    requires forall a :: a in g ==> !a.IsSelected()
    ensures GoodGroup(Replace(g, d, To(d, Best)))
  {
    assert To(d, Best) in Replace(g, d, To(d, Best));
  }

  lemma PromoteUnder(g: Anns, d: Announcement, a: Announcement)
    requires GoodGroup(g) && d in g && d.state.Delayed?
    requires a in g && a.IsSelected() && (a.state.Best? ==> a.priority >= d.priority)
    ensures GoodGroup(Replace(g, d, To(d, Ready)))
  {
    assert a in Replace(g, d, To(d, Ready));
  }

  lemma PromoteOver(g: Anns, d: Announcement, o: Announcement)
    requires GoodGroup(g) && d in g && d.state.Delayed?
    requires o in g && o.state.Best? && o.priority < d.priority
    ensures GoodGroup(Replace(Replace(g, o, To(o, Ready)), d, To(d, Best)))
  {
    var g' := Replace(Replace(g, o, To(o, Ready)), d, To(d, Best));
    assert To(d, Best) in g';
    assert forall a :: a in g' && a.IsSelected() ==> a == To(d, Best);
    assert forall r :: r in g' && r.state.Ready? ==> r.priority <= d.priority;
  }

  // ---- An announcement stops being a candidate, or goes back to waiting ----

  /** Only the announcement that was not selected changes. */
  lemma RetireUnselected(g: Anns, a: Announcement, state: State)
    requires GoodGroup(g) && a in g && !a.IsSelected()
    requires state.Delayed? || (state.Completed? && exists b :: b in g && b != a && !b.state.Completed?)
    ensures GoodGroup(Replace(g, a, To(a, state)))
  {
    var g' := Replace(g, a, To(a, state));
    assert forall b :: b in g && b != a ==> b in g';
    assert To(a, state) in g';
  }

  /** The selected one goes and the best ready one takes its place. */
  lemma RetireReselect(g: Anns, a: Announcement, p: Announcement, state: State)
    requires GoodGroup(g) && a in g && a.IsSelected()
    requires p in g && p.state.Ready? && p.peer != a.peer
    requires forall b :: b in g && b.state.Ready? ==> b.priority <= p.priority
    requires state.Delayed? || state.Completed?
    ensures GoodGroup(Replace(Replace(g, p, To(p, Best)), a, To(a, state)))
  {
    assert To(p, Best) in Replace(Replace(g, p, To(p, Best)), a, To(a, state));
  }

  /** The selected one goes and no ready one is left. */
  lemma RetireLast(g: Anns, a: Announcement, state: State)
    requires GoodGroup(g) && a in g && a.IsSelected()
    requires forall b :: b in g ==> !b.state.Ready?
    requires state.Delayed? || (state.Completed? && exists b :: b in g && b != a && !b.state.Completed?)
    ensures GoodGroup(Replace(g, a, To(a, state)))
  {
    var g' := Replace(g, a, To(a, state));
    assert forall b :: b in g && b != a ==> b in g';
    assert To(a, state) in g';
  }

  lemma DropCompleted(g: Anns, a: Announcement)
    requires GoodGroup(g) && a in g && a.state.Completed?
    ensures GoodGroup(g - {a})
  {
    assert forall b :: b in g && b != a ==> b in g - {a};
  }

  lemma AddDelayed(g: Anns, d: Announcement)
    requires GoodGroup(g) && d.state.Delayed?
    ensures GoodGroup(g + {d})
  {
    assert forall b :: b in g ==> b in g + {d};
    assert d in g + {d};
  }

  // ---- A request goes out ----

  lemma RequestBest(g: Anns, a: Announcement, a': Announcement)
    requires GoodGroup(g) && a in g && a.state.Best?
    requires a'.state.Requested?
    ensures GoodGroup(Replace(g, a, a'))
  {
    assert a' in Replace(g, a, a');
  }

  lemma RequestOther(g: Anns, a: Announcement, a': Announcement)
    requires GoodGroup(g) && a in g && (a.state.Delayed? || a.state.Ready?)
    requires a'.state.Requested? && forall b :: b in g ==> !b.IsSelected()
    ensures GoodGroup(Replace(g, a, a'))
  {
    assert a' in Replace(g, a, a');
  }

  /** Any other selected announcement is first set aside: a candidate goes back among the ready
      ones, an earlier request counts as completed. */
  lemma RequestInstead(g: Anns, o: Announcement, a: Announcement, a': Announcement)
    requires GoodGroup(g) && a in g && (a.state.Delayed? || a.state.Ready?)
    requires o in g && o.IsSelected() && a'.state.Requested?
    ensures GoodGroup(Replace(Replace(g, o, To(o, if o.state.Best? then Ready else Completed)), a, a'))
  {
    assert a' in Replace(Replace(g, o, To(o, if o.state.Best? then Ready else Completed)), a, a');
  }

  // ---- The outcome of each operation on the whole collection ----

  ghost predicate UniqueIn(anns: Anns) {
    forall a, b :: a in anns && b in anns && a.peer == b.peer && a.invid == b.invid ==> a == b
  }

  lemma UniqueElems(s: seq<Announcement>)
    requires UniqueKeys(s)
    ensures UniqueIn(Elems(s))
  {
  }

  /** A delayed announcement became due: best of its invid, or ready behind the selected one. */
  ghost predicate Promoted(anns: Anns, d: Announcement, anns': Anns) {
    || ((forall a :: a in OfInv(anns, d.invid) ==> !a.IsSelected()) && anns' == Replace(anns, d, To(d, Best)))
    || (exists o :: o in OfInv(anns, d.invid) && o.state.Best? && o.priority < d.priority
                    && anns' == Replace(Replace(anns, o, To(o, Ready)), d, To(d, Best)))
    || ((exists a :: a in OfInv(anns, d.invid) && a.IsSelected() && (a.state.Best? ==> a.priority >= d.priority))
        && anns' == Replace(anns, d, To(d, Ready)))
  }

  /** An announcement was retired; if it was selected, the best ready one took its place. */
  ghost predicate Retired(anns: Anns, a: Announcement, state: State, anns': Anns) {
    || ((a.IsSelected() ==> forall b :: b in OfInv(anns, a.invid) ==> !b.state.Ready?)
        && anns' == Replace(anns, a, To(a, state)))
    || (a.IsSelected()
        && exists p :: BestReady(OfInv(anns, a.invid), p) && anns' == Replace(Replace(anns, p, To(p, Best)), a, To(a, state)))
  }

  ghost predicate BestReady(g: Anns, p: Announcement) {
    p in g && p.state.Ready? && forall b :: b in g && b.state.Ready? ==> b.priority <= p.priority
  }

  lemma PromotedGood(anns: Anns, d: Announcement, anns': Anns)
    requires Good(anns) && d in anns && d.state.Delayed? && Promoted(anns, d, anns')
    ensures Good(anns')
  {
    var g := OfInv(anns, d.invid);
    if anns' == Replace(anns, d, To(d, Best)) && forall a :: a in g ==> !a.IsSelected() {
      PromoteAlone(g, d);
      GoodReplace(anns, d, To(d, Best));
    } else if o :| o in g && o.state.Best? && o.priority < d.priority
                   && anns' == Replace(Replace(anns, o, To(o, Ready)), d, To(d, Best)) {
      PromoteOver(g, d, o);
      GoodReplaceTwo(anns, o, To(o, Ready), d, To(d, Best));
    } else {
      var a :| a in g && a.IsSelected() && (a.state.Best? ==> a.priority >= d.priority);
      PromoteUnder(g, d, a);
      GoodReplace(anns, d, To(d, Ready));
    }
  }

  lemma RetiredGood(anns: Anns, a: Announcement, state: State, anns': Anns)
    requires Good(anns) && UniqueIn(anns) && a in anns && Retired(anns, a, state, anns')
    requires state.Delayed? || (state.Completed? && exists b :: b in anns && b.invid == a.invid && b != a && !b.state.Completed?)
    ensures Good(anns')
  {
    var g := OfInv(anns, a.invid);
    assert state.Completed? ==> exists b :: b in g && b != a && !b.state.Completed?;
    if p :| a.IsSelected() && BestReady(g, p) && anns' == Replace(Replace(anns, p, To(p, Best)), a, To(a, state)) {
      RetireReselect(g, a, p, state);
      GoodReplaceTwo(anns, p, To(p, Best), a, To(a, state));
    } else {
      if a.IsSelected() {
        RetireLast(g, a, state);
      } else {
        RetireUnselected(g, a, state);
      }
      GoodReplace(anns, a, To(a, state));
    }
  }
}
