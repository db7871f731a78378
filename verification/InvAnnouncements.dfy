/** Announcements of inventory items by peers, and what a well-formed collection of them is.

    The collection is kept sorted by (invid, state, priority). The lemmas on neighbours show that
    looking at one adjacent element of that order answers a question about the whole invid. */
module InvAnnouncements {

  type InvId = nat
  type NodeId = int

  datatype State = Delayed | Ready | Best | Requested | Completed

  const PREFERRED_BIT := 0x8000_0000_0000_0000

  datatype Announcement = Announcement(
    invid: InvId, peer: NodeId, preferred: bool, priority: nat, sequence: nat, time: int, state: State)
  {
    predicate IsSelected() { state.Best? || state.Requested? }
    predicate IsWaiting() { state.Requested? || state.Delayed? }
    predicate IsSelectable() { state.Ready? || state.Best? }

    function Rank(): nat {
      match state
      case Delayed => 0
      case Ready => 1
      case Best => 2
      case Requested => 3
      case Completed => 4
    }

    // The priority takes part in the order only among the ready ones.
    function OrderPriority(): nat { if state.Ready? then priority else 0 }
  }

  type Anns = set<Announcement>

  /** The order of the ByInvId index; equal keys may come either way round. */
  predicate Before(a: Announcement, b: Announcement) {
    || a.invid < b.invid
    || (a.invid == b.invid && a.Rank() < b.Rank())
    || (a.invid == b.invid && a.Rank() == b.Rank() && a.OrderPriority() <= b.OrderPriority())
  }

  ghost predicate Sorted(s: seq<Announcement>) {
    forall i, j :: 0 <= i < j < |s| ==> Before(s[i], s[j])
  }

  ghost predicate UniqueKeys(s: seq<Announcement>) {
    forall i, j :: 0 <= i < j < |s| ==> s[i].peer != s[j].peer || s[i].invid != s[j].invid
  }

  ghost function Elems(s: seq<Announcement>): Anns {
    set a | a in s
  }

  // ---- The invariants of one invid ----

  ghost function OfInv(anns: Anns, x: InvId): Anns {
    set a | a in anns && a.invid == x
  }

  /** What holds of all announcements of one invid taken together. */
  ghost predicate GoodGroup(g: Anns) {
    && (forall a, b :: a in g && b in g && a.IsSelected() && b.IsSelected() ==> a == b)
    && (forall r :: r in g && r.state.Ready? ==> exists a :: a in g && a.IsSelected())
    && (forall a, r :: a in g && r in g && a.state.Best? && r.state.Ready? ==> a.priority >= r.priority)
    && (g != {} ==> exists a :: a in g && !a.state.Completed?)
  }

  ghost predicate Good(anns: Anns) {
    forall x: InvId :: GoodGroup(OfInv(anns, x))
  }

  ghost function Replace(anns: Anns, a: Announcement, a': Announcement): Anns {
    anns - {a} + {a'}
  }

  // ---- One neighbour answers for the whole invid ----

  /** The successor of a ready announcement: whether a selected one exists, and which. */
  lemma SuccessorTells(s: seq<Announcement>, i: nat)
    requires Sorted(s) && i < |s| && s[i].state.Ready?
    ensures i + 1 == |s| || s[i + 1].invid != s[i].invid || s[i + 1].state.Completed? ==>
              forall b :: b in s && b.invid == s[i].invid ==>
                !b.IsSelected() && (b.state.Ready? ==> b.priority <= s[i].priority)
    ensures i + 1 < |s| && s[i + 1].invid == s[i].invid && s[i + 1].IsSelected() ==>
              forall b :: b in s && b.invid == s[i].invid && b.state.Ready? ==> b.priority <= s[i].priority
    ensures i + 1 < |s| && s[i + 1].invid == s[i].invid && !s[i + 1].IsSelected() && !s[i + 1].state.Completed? ==>
              s[i + 1].state.Ready? && s[i + 1].priority >= s[i].priority
  {
    forall b | b in s && b.invid == s[i].invid
      ensures i + 1 == |s| || s[i + 1].invid != s[i].invid || s[i + 1].state.Completed? ==>
                !b.IsSelected() && (b.state.Ready? ==> b.priority <= s[i].priority)
      ensures i + 1 < |s| && s[i + 1].invid == s[i].invid && s[i + 1].IsSelected() && b.state.Ready? ==>
                b.priority <= s[i].priority
    {
      var j :| 0 <= j < |s| && s[j] == b;
      assert j < i ==> Before(s[j], s[i]);
      assert i + 1 < |s| ==> Before(s[i], s[i + 1]);
      assert i + 1 < j ==> Before(s[i + 1], s[j]);
    }
    assert i + 1 < |s| ==> Before(s[i], s[i + 1]);
  }

  /** The predecessor of the selected announcement is the best ready one, if there is any. */
  lemma PredecessorTells(s: seq<Announcement>, i: nat)
    requires Sorted(s) && i < |s| && s[i].IsSelected()
    requires forall b :: b in s && b.invid == s[i].invid && b.IsSelected() ==> b == s[i]
    requires UniqueKeys(s)
    ensures i > 0 && s[i - 1].invid == s[i].invid && s[i - 1].state.Ready? ==>
              forall b :: b in s && b.invid == s[i].invid && b.state.Ready? ==> b.priority <= s[i - 1].priority
    ensures !(i > 0 && s[i - 1].invid == s[i].invid && s[i - 1].state.Ready?) ==>
              forall b :: b in s && b.invid == s[i].invid ==> !b.state.Ready?
  {
    forall b | b in s && b.invid == s[i].invid && b.state.Ready?
      ensures i > 0 && s[i - 1].invid == s[i].invid && s[i - 1].state.Ready? && b.priority <= s[i - 1].priority
    {
      var j :| 0 <= j < |s| && s[j] == b;
      assert j < i;
      assert Before(s[i - 1], s[i]);
      assert s[i - 1] in s;
      assert j < i - 1 ==> Before(s[j], s[i - 1]);
    }
  }

  /** The two neighbours tell whether an announcement is the last one of its invid not completed. */
  lemma NeighboursTell(s: seq<Announcement>, i: nat)
    requires Sorted(s) && UniqueKeys(s) && i < |s| && !s[i].state.Completed?
    ensures (|| (i > 0 && s[i - 1].invid == s[i].invid)
             || (i + 1 < |s| && s[i + 1].invid == s[i].invid && !s[i + 1].state.Completed?)) <==>
            exists b :: b in s && b.invid == s[i].invid && b != s[i] && !b.state.Completed?
  {
    if i > 0 && s[i - 1].invid == s[i].invid {
      assert Before(s[i - 1], s[i]) && s[i - 1] in s;
    }
    if i + 1 < |s| && s[i + 1].invid == s[i].invid {
      assert s[i + 1] in s && s[i + 1] != s[i];
    }
    forall b | b in s && b.invid == s[i].invid && b != s[i] && !b.state.Completed?
      ensures || (i > 0 && s[i - 1].invid == s[i].invid)
              || (i + 1 < |s| && s[i + 1].invid == s[i].invid && !s[i + 1].state.Completed?)
    {
      var j :| 0 <= j < |s| && s[j] == b;
      assert j < i - 1 ==> Before(s[j], s[i - 1]);
      assert i > 0 ==> Before(s[i - 1], s[i]);
      assert i + 1 < |s| ==> Before(s[i], s[i + 1]);
      assert i + 1 < j ==> Before(s[i + 1], s[j]);
    }
  }

  // ---- Taking an element out of the order and putting one in ----

  function Without(s: seq<Announcement>, i: nat): seq<Announcement>
    requires i < |s|
  {
    s[..i] + s[i + 1..]
  }

  function With(s: seq<Announcement>, j: nat, a: Announcement): seq<Announcement>
    requires j <= |s|
  {
    s[..j] + [a] + s[j..]
  }

  ghost predicate FitsAt(s: seq<Announcement>, j: nat, a: Announcement) {
    && j <= |s|
    && (forall k :: 0 <= k < j ==> Before(s[k], a))
    && (forall k :: j <= k < |s| ==> Before(a, s[k]))
  }

  lemma WithoutOrdered(s: seq<Announcement>, i: nat)
    requires i < |s| && Sorted(s) && UniqueKeys(s)
    ensures Sorted(Without(s, i)) && UniqueKeys(Without(s, i))
    ensures Elems(Without(s, i)) == Elems(s) - {s[i]}
  {
    var r := Without(s, i);
    assert forall k :: 0 <= k < |r| ==> r[k] == s[if k < i then k else k + 1];
    forall a | a in s && a != s[i]
      ensures a in r
    {
      var k :| 0 <= k < |s| && s[k] == a;
      assert r[if k < i then k else k - 1] == a;
    }
    assert s[i] !in r;
  }

  lemma WithOrdered(s: seq<Announcement>, j: nat, a: Announcement)
    requires Sorted(s) && UniqueKeys(s) && FitsAt(s, j, a)
    requires forall b :: b in s ==> b.peer != a.peer || b.invid != a.invid
    ensures Sorted(With(s, j, a)) && UniqueKeys(With(s, j, a))
    ensures Elems(With(s, j, a)) == Elems(s) + {a}
  {
    var r := With(s, j, a);
    assert forall k :: 0 <= k < |r| ==> r[k] == if k < j then s[k] else if k == j then a else s[k - 1];
    forall b | b in s
      ensures b in r
    {
      var k :| 0 <= k < |s| && s[k] == b;
      assert r[if k < j then k else k + 1] == b;
    }
    assert r[j] == a;
  }

  /** A place where an element fits into the order; which one among equals is left open. */
  method Place(s: seq<Announcement>, a: Announcement) returns (j: nat)
    requires Sorted(s)
    ensures FitsAt(s, j, a)
  {
    j := |s|;
    while j > 0 && !Before(s[j - 1], a)
      invariant j <= |s|
      invariant forall k :: j <= k < |s| ==> Before(a, s[k])
    {
      j := j - 1;
    }
    if j > 0 {
      forall k | 0 <= k < j
        ensures Before(s[k], a)
      {
        assert k < j - 1 ==> Before(s[k], s[j - 1]);
      }
    }
  }

  // ---- Counting ----

  datatype PeerInfo = PeerInfo(total: nat, completed: nat, requested: nat)

  ghost function Pick(anns: Anns, f: Announcement -> bool): Anns {
    set a | a in anns && f(a)
  }

  ghost function FromPeer(p: NodeId): Announcement -> bool { (a: Announcement) => a.peer == p }
  ghost function CompletedFrom(p: NodeId): Announcement -> bool { (a: Announcement) => a.peer == p && a.state.Completed? }
  ghost function RequestedFrom(p: NodeId): Announcement -> bool { (a: Announcement) => a.peer == p && a.state.Requested? }

  /** The statistics of a peer, counted afresh. */
  ghost function Recount(anns: Anns, p: NodeId): PeerInfo {
    PeerInfo(|Pick(anns, FromPeer(p))|, |Pick(anns, CompletedFrom(p))|, |Pick(anns, RequestedFrom(p))|)
  }

  function One(b: bool): nat { if b then 1 else 0 }

  lemma PickWith(anns: Anns, a: Announcement, f: Announcement -> bool)
    requires a !in anns
    ensures |Pick(anns + {a}, f)| == |Pick(anns, f)| + One(f(a))
  {
    if f(a) {
      assert Pick(anns + {a}, f) == Pick(anns, f) + {a};
    } else {
      assert Pick(anns + {a}, f) == Pick(anns, f);
    }
  }

  lemma RecountWith(anns: Anns, a: Announcement, p: NodeId)
    requires a !in anns
    ensures Recount(anns + {a}, p) ==
            if a.peer != p then Recount(anns, p)
            else PeerInfo(Recount(anns, p).total + 1,
                          Recount(anns, p).completed + One(a.state.Completed?),
                          Recount(anns, p).requested + One(a.state.Requested?))
  {
    PickWith(anns, a, FromPeer(p));
    PickWith(anns, a, CompletedFrom(p));
    PickWith(anns, a, RequestedFrom(p));
  }

  /** The cached statistics are the recounted ones, with no entry for a peer without announcements. */
  ghost predicate Counted(anns: Anns, info: map<NodeId, PeerInfo>) {
    forall p: NodeId :: CountedAt(anns, info, p)
  }

  ghost predicate CountedAt(anns: Anns, info: map<NodeId, PeerInfo>, p: NodeId) {
    (p in info <==> Recount(anns, p).total > 0) && (p in info ==> info[p] == Recount(anns, p))
  }
}
