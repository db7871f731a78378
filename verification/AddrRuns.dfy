/** Whole runs of the address manager. */
module AddrRuns {
  import opened Options
  import opened AddrBook
  import opened AddrMoves
  import opened AddrMan
  import opened AddrCheck

  datatype Op =
    | Add(addrs: seq<Address>, source: nat, timePenalty: int, now: int, draws: nat -> nat)
    | Good(service: Service, testBeforeEvict: bool, time: int)
    | Attempt(service: Service, countFailure: bool, time: int)
    | Connected(service: Service, time: int)
    | SetServices(service: Service, services: bv64)
    | GetAddr(maxAddresses: nat, maxPct: nat, network: Option<nat>, now: int)
    | ResolveCollisions(now: int)
    | SelectTriedCollision

  /** The clock is past its origin. */
  predicate Timely(op: Op) {
    match op
    case Good(_, _, time) => time > 0
    case Attempt(_, _, time) => time >= 0
    case ResolveCollisions(now) => now > 0
    case _ => true
  }

  method Do(m: AddrMan, op: Op)
    requires m.Valid() && Timely(op)
    modifies m
    ensures m.Valid() && Grows(old(m.B()), m.B())
  {
    hide Core, Counted, Settled, Colliding, Grows, Moves, Kept, Heard, SameEntries;
    GrowsRefl(m.B());
    match op {
      case Add(addrs, source, timePenalty, now, draws) => var _, _, _ := m.Add(addrs, source, timePenalty, now, draws);
      case Good(s, testBeforeEvict, time) => m.Good(s, testBeforeEvict, time);
      case Attempt(s, countFailure, time) => m.Attempt(s, countFailure, time);
      case Connected(s, time) => m.Connected(s, time);
      case SetServices(s, services) => m.SetServices(s, services);
      case GetAddr(maxAddresses, maxPct, network, now) => var _ := m.GetAddr(maxAddresses, maxPct, network, now);
      case ResolveCollisions(now) => var _, _ := m.ResolveCollisions(now);
      case SelectTriedCollision => var _, _ := m.SelectTriedCollision();
    }
  }

  /** Starting empty, the check finds nothing but a null key after any operation; a tried slot once filled stays so,
      an id is never given to a second address, and at most ten entries wait for a slot. */
  method Run(env: Env, ops: seq<Op>) returns (m: AddrMan, codes: seq<int>, ghost books: seq<Book>)
    requires forall i :: 0 <= i < |ops| ==> Timely(ops[i])
    ensures fresh(m) && m.Valid() && m.env == env && |m.triedCollisions| <= 10
    ensures |codes| == |ops| && forall i :: 0 <= i < |ops| ==> codes[i] == if env.nullKey then -16 else 0
    ensures |books| == |ops| + 1 && books[|ops|] == m.B()
    ensures forall i, j :: 0 <= i < j < |books| ==> Grows(books[i], books[j])
    ensures forall i :: 0 <= i < |books| ==> Consistent(env, books[i])
  {
    m := new AddrMan(env);
    hide Core, Counted, Settled, Grows, Checked, Shaped;
    codes, books := [], [m.B()];
    for n := 0 to |ops|
      invariant fresh(m) && m.Valid() && m.env == env && |codes| == n && |books| == n + 1 && books[n] == m.B()
      invariant forall i :: 0 <= i < n ==> codes[i] == if env.nullKey then -16 else 0
      invariant forall i, j :: 0 <= i < j < |books| ==> Grows(books[i], books[j])
      invariant forall i :: 0 <= i < |books| ==> Consistent(env, books[i])
    {
      ghost var b := m.B();
      Do(m, ops[n]);
      forall i | 0 <= i < n
        ensures Grows(books[i], m.B())
      {
        GrowsTrans(books[i], b, m.B());
      }
      CheckedIff(env, m.B());
      var code := CheckAddrman(env, Book(m.mapInfo, m.mapAddr, m.vRandom, m.vvNew, m.vvTried, m.idCount, m.nNew, m.nTried));
      codes, books := codes + [code], books + [m.B()];
    }
  }
}
