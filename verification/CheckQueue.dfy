/** The script-check thread pool as a state machine.

    One step is one critical section, one check executed, one notification or one wake-up. The
    actions carry every choice the scheduler makes, so a run is just a sequence of actions and
    what is proved of all sequences holds of every interleaving. */
module CheckQueue {

  /** A verification and the answer it gives. */
  datatype Check = Check(id: nat, passes: bool)

  datatype Thread =
    | Outside                                             // the master, between two waits
    | Entering                                            // about to take the lock for the first time
    | Working(batch: seq<Check>, next: nat, fOk: bool)    // `next` checks of the batch are done
    | Asleep
    | Woken                                               // notified, about to take the lock again
    | Gone                                                // a worker that left the loop because of a stop request

  datatype Who = Master | Worker(i: nat)

  /** What a wait answered, and the checks it is about: those added since the one before, or since the
      workers were last started, and those left over then. */
  datatype Answer = Answer(value: bool, checks: seq<Check>) | Interrupted

  datatype Pool = Pool(
    batchSize: nat, queue: seq<Check>, nIdle: int, nTotal: int, fAllOk: bool, nTodo: int, stop: bool,
    workers: seq<Thread>, master: Thread,
    added: seq<Check>, answers: seq<Answer>, leavers: nat)

  datatype Action =
    | Add(checks: seq<Check>, notified: nat)
    | StartWait
    | Enter(who: Who)         // critical section after a batch, or the first one
    | Resume(who: Who)        // critical section after a wake-up
    | Execute(who: Who)
    | Spurious(who: Who)      // a condition variable may wake up unasked
    | RequestStop
    | NotifyStop
    | Join                    // all workers have left; the stop request is taken back
    | Start(n: nat)           // new workers on whatever is still queued

  function Initial(batchSize: nat, n: nat): Pool {
    Pool(batchSize, [], 0, 0, true, 0, false, seq(n, _ => Entering), Outside, [], [], 0)
  }

  predicate Exists(p: Pool, who: Who) {
    who.Worker? ==> who.i < |p.workers|
  }

  function Get(p: Pool, who: Who): Thread
    requires Exists(p, who)
  {
    if who.Master? then p.master else p.workers[who.i]
  }

  function Set(p: Pool, who: Who, t: Thread): Pool
    requires Exists(p, who)
  {
    if who.Master? then p.(master := t) else p.(workers := p.workers[who.i := t])
  }

  function Wake(t: Thread): Thread {
    if t.Asleep? then Woken else t
  }

  function WakeAll(ts: seq<Thread>): (r: seq<Thread>)
    ensures |r| == |ts| && forall i :: 0 <= i < |ts| ==> r[i] == Wake(ts[i])
  {
    if ts == [] then [] else [Wake(ts[0])] + WakeAll(ts[1..])
  }

  // ---- The critical section ----

  /** Accounts for the batch just finished, or counts the thread in. */
  function CleanUp(p: Pool, who: Who): Pool
    requires Exists(p, who)
  {
    var t := Get(p, who);
    if !t.Working? then p.(nTotal := p.nTotal + 1)
    else
      var q := p.(fAllOk := p.fAllOk && t.fOk, nTodo := p.nTodo - |t.batch|);
      if q.nTodo == 0 && !who.Master? then q.(master := Wake(q.master)) else q
  }

  lemma MulGrows(q: nat, k: nat)
    requires k > 0
    ensures q * k >= q
  {
  }

  lemma ShareBound(n: nat, among: nat)
    requires among > 0
    ensures 0 <= n / among <= n
  {
    var q, r := n / among, n % among;
    assert n == q * among + r;
    assert q >= 0;
    MulGrows(q, among);
  }

  /** A share of the queue, not more than the batch size and not less than one. */
  function BatchOf(p: Pool): (n: nat)
    requires p.queue != []
    ensures 1 <= n <= |p.queue|
    ensures n <= p.batchSize || n == 1
    // The largest number within the batch size that leaves as much for every other thread.
    ensures n * (p.nTotal + p.nIdle + 1) <= |p.queue| || n == 1
    ensures n < p.batchSize ==> p.nTotal + p.nIdle + 1 <= 0 || (n + 1) * (p.nTotal + p.nIdle + 1) > |p.queue|
  {
    var among := p.nTotal + p.nIdle + 1;
    var share := if among > 0 then ShareBound(|p.queue|, among); |p.queue| / among else 0;
    var n := if share < p.batchSize then share else p.batchSize;
    if n < 1 then 1 else n
  }

  /** Where a stop request leaves a thread; the master may wait again. */
  function OutOf(who: Who): Thread { if who.Master? then Outside else Gone }

  /** From the wait loop on: return, fall asleep, give up, or take a batch off the end. */
  function Proceed(p: Pool, who: Who): Pool
    requires Exists(p, who)
  {
    if p.queue == [] && !p.stop then
      if who.Master? && p.nTodo == 0 then
        p.(nTotal := p.nTotal - 1, fAllOk := true, master := Outside,
           answers := p.answers + [Answer(p.fAllOk, p.added)], added := [])
      else Set(p.(nIdle := p.nIdle + 1), who, Asleep)
    else if p.stop then
      Set(p.(answers := if who.Master? then p.answers + [Interrupted] else p.answers, leavers := p.leavers + 1), who, OutOf(who))
    else
      var from := |p.queue| - BatchOf(p);
      Set(p.(queue := p.queue[..from]), who, Working(p.queue[from..], 0, p.fAllOk))
  }

  // ---- Steps ----

  predicate Enabled(p: Pool, a: Action) {
    match a
    case Add(checks, notified) =>
      && p.master.Outside?
      && (|checks| == 1 && (exists i :: 0 <= i < |p.workers| && p.workers[i].Asleep?) ==>
            notified < |p.workers| && p.workers[notified].Asleep?)
    case StartWait => p.master.Outside?
    case Enter(who) =>
      && Exists(p, who)
      && (Get(p, who).Entering? || (Get(p, who).Working? && Get(p, who).next == |Get(p, who).batch|))
    case Resume(who) => Exists(p, who) && Get(p, who).Woken?
    case Execute(who) => Exists(p, who) && Get(p, who).Working? && Get(p, who).next < |Get(p, who).batch|
    case Spurious(who) => Exists(p, who) && Get(p, who).Asleep?
    case RequestStop => !p.stop
    case NotifyStop => p.stop
    case Join => p.stop && forall i :: 0 <= i < |p.workers| ==> p.workers[i].Gone?
    case Start(_) => p.workers == [] && p.master.Outside?
  }

  function Notified(ts: seq<Thread>, checks: seq<Check>, notified: nat): seq<Thread> {
    if |checks| > 1 then WakeAll(ts)
    else if |checks| == 1 && notified < |ts| then ts[notified := Wake(ts[notified])]
    else ts
  }

  function Do(p: Pool, a: Action): Pool
    requires Enabled(p, a)
  {
    match a
    case Add(checks, notified) =>
      p.(queue := p.queue + checks, nTodo := p.nTodo + |checks|, added := p.added + checks,
         workers := Notified(p.workers, checks, notified))
    case StartWait => p.(master := Entering)
    case Enter(who) => Proceed(CleanUp(p, who), who)
    case Resume(who) => Proceed(p.(nIdle := p.nIdle - 1), who)
    case Execute(who) =>
      var t := Get(p, who);
      Set(p, who, t.(next := t.next + 1, fOk := t.fOk && t.batch[t.next].passes))
    case Spurious(who) => Set(p, who, Woken)
    case RequestStop => p.(stop := true)
    case NotifyStop => p.(workers := WakeAll(p.workers))
    case Join => p.(workers := [], stop := false)
    case Start(n) =>
      p.(nIdle := 0, nTotal := 0, fAllOk := true, workers := seq(n, _ => Entering), added := p.queue, leavers := 0)
  }

  // ---- Sums over the threads ----

  function Sum(ts: seq<Thread>, f: Thread -> nat): nat {
    if ts == [] then 0 else f(ts[0]) + Sum(ts[1..], f)
  }

  lemma {:induction false} SumUpdate(ts: seq<Thread>, f: Thread -> nat, i: nat, t: Thread)
    requires i < |ts|
    ensures Sum(ts[i := t], f) + f(ts[i]) == Sum(ts, f) + f(t)
  {
    if i == 0 {
      assert ts[i := t][1..] == ts[1..];
    } else {
      SumUpdate(ts[1..], f, i - 1, t);
      assert ts[i := t][1..] == ts[1..][i - 1 := t];
    }
  }

  lemma {:induction false} SumWakeAll(ts: seq<Thread>, f: Thread -> nat)
    requires f(Asleep) == f(Woken)
    ensures Sum(WakeAll(ts), f) == Sum(ts, f)
  {
    if ts != [] {
      SumWakeAll(ts[1..], f);
      assert WakeAll(ts)[1..] == WakeAll(ts[1..]);
    }
  }

  lemma {:induction false} SumPositive(ts: seq<Thread>, f: Thread -> nat) returns (i: nat)
    requires Sum(ts, f) > 0
    ensures i < |ts| && f(ts[i]) > 0
  {
    if f(ts[0]) > 0 {
      i := 0;
    } else {
      i := SumPositive(ts[1..], f);
      i := i + 1;
    }
  }

  lemma {:induction false} SumZero(ts: seq<Thread>, f: Thread -> nat, i: nat)
    requires Sum(ts, f) == 0 && i < |ts|
    ensures f(ts[i]) == 0
  {
    if i > 0 {
      SumZero(ts[1..], f, i - 1);
    }
  }

  // Held checks, sleeping threads, threads counted in.
  function HeldF(): Thread -> nat { (t: Thread) => if t.Working? then |t.batch| else 0 }
  function IdleF(): Thread -> nat { (t: Thread) => if t.Asleep? || t.Woken? then 1 else 0 }
  function TotalF(): Thread -> nat { (t: Thread) => if t.Working? || t.Asleep? || t.Woken? then 1 else 0 }

  function SumAll(p: Pool, f: Thread -> nat): nat {
    Sum(p.workers, f) + f(p.master)
  }

  // ---- The invariant ----

  ghost predicate GoodThread(t: Thread, added: seq<Check>) {
    t.Working? ==> 0 < |t.batch| && t.next <= |t.batch| && forall c :: c in t.batch ==> c in added
  }

  /** The counters say how many checks are queued or held and how many threads sleep or take part,
      those a stop made leave being counted still; a thread at the lock, about to proceed, is
      counted in `extra`. */
  ghost predicate Counts(p: Pool, extra: nat) {
    && p.nTodo == |p.queue| + SumAll(p, HeldF())
    && p.nIdle == SumAll(p, IdleF())
    && p.nTotal == SumAll(p, TotalF()) + p.leavers + extra
  }

  /** Batches are non-empty, and every check queued or held was added since the last wait. */
  ghost predicate Shape(p: Pool) {
    && (forall i :: 0 <= i < |p.workers| ==> GoodThread(p.workers[i], p.added) && !p.workers[i].Outside?)
    && GoodThread(p.master, p.added)
    && (forall c :: c in p.queue ==> c in p.added)
  }

  /** A failed check that still is to be reported: queued, held, or held by a thread that knows. */
  ghost predicate PendingIn(t: Thread, c: Check) {
    t.Working? && t.next <= |t.batch| && (!t.fOk || c in t.batch[t.next..])
  }

  ghost predicate Pending(p: Pool, c: Check) {
    c in p.queue || PendingIn(p.master, c) || exists i :: 0 <= i < |p.workers| && PendingIn(p.workers[i], c)
  }

  ghost predicate Passes(checks: seq<Check>) {
    forall c :: c in checks ==> c.passes
  }

  /** While all seems well, every failed check is still pending; and no one cries wolf. */
  ghost predicate Verdict(p: Pool) {
    && (p.fAllOk ==> forall c :: c in p.added && !c.passes ==> Pending(p, c))
    && (!p.fAllOk ==> !Passes(p.added))
    && (p.master.Working? && !p.master.fOk ==> !Passes(p.added))
    && (forall i :: 0 <= i < |p.workers| && p.workers[i].Working? && !p.workers[i].fOk ==> !Passes(p.added))
  }

  /** The master sleeps only while a worker holds its last checks; workers only when none is queued. */
  ghost predicate Awake(p: Pool) {
    && (p.master.Asleep? ==> p.queue == [] && p.nTodo > 0)
    && (p.queue != [] && !p.stop && |p.workers| > 0 ==> exists i :: 0 <= i < |p.workers| && !p.workers[i].Asleep?)
  }

  ghost predicate RightAnswers(p: Pool) {
    forall k :: 0 <= k < |p.answers| && p.answers[k].Answer? ==> (p.answers[k].value <==> Passes(p.answers[k].checks))
  }

  ghost predicate Inv(p: Pool) {
    Counts(p, 0) && Shape(p) && Verdict(p) && Awake(p) && RightAnswers(p)
  }

  // ---- Each kind of step keeps it ----

  lemma SumSet(p: Pool, who: Who, t: Thread, f: Thread -> nat)
    requires Exists(p, who)
    ensures SumAll(Set(p, who, t), f) + f(Get(p, who)) == SumAll(p, f) + f(t)
  {
    if who.Worker? {
      SumUpdate(p.workers, f, who.i, t);
    }
  }

  lemma SumsSet(p: Pool, who: Who, t: Thread)
    requires Exists(p, who)
    ensures SumAll(Set(p, who, t), HeldF()) + HeldF()(Get(p, who)) == SumAll(p, HeldF()) + HeldF()(t)
    ensures SumAll(Set(p, who, t), IdleF()) + IdleF()(Get(p, who)) == SumAll(p, IdleF()) + IdleF()(t)
    ensures SumAll(Set(p, who, t), TotalF()) + TotalF()(Get(p, who)) == SumAll(p, TotalF()) + TotalF()(t)
  {
    SumSet(p, who, t, HeldF());
    SumSet(p, who, t, IdleF());
    SumSet(p, who, t, TotalF());
  }

  /** The state with a thread at the lock: its batch, if any, has been accounted for. */
  function AtLock(p: Pool, who: Who): Pool
    requires Exists(p, who)
  {
    Set(p, who, Entering)
  }

  lemma ProceedFromLock(p: Pool, who: Who)
    requires Exists(p, who)
    ensures Proceed(AtLock(p, who), who) == Proceed(p, who)
  {
    if p.queue == [] && !p.stop {
      SetTwice(p.(nIdle := p.nIdle + 1), who, Entering, Asleep);
    } else if p.stop {
      SetTwice(p.(answers := if who.Master? then p.answers + [Interrupted] else p.answers, leavers := p.leavers + 1), who, Entering, OutOf(who));
    } else {
      var from := |p.queue| - BatchOf(p);
      SetTwice(p.(queue := p.queue[..from]), who, Entering, Working(p.queue[from..], 0, p.fAllOk));
    }
  }

  lemma SetTwice(p: Pool, who: Who, s: Thread, t: Thread)
    requires Exists(p, who)
    ensures Set(Set(p, who, s), who, t) == Set(p, who, t)
  {
  }

  ghost predicate LockInv(p: Pool, who: Who) {
    && Exists(p, who) && Get(p, who).Entering?
    && Counts(p, 1) && Shape(p) && Verdict(p) && Awake(p) && RightAnswers(p)
  }

  lemma InitialInv(batchSize: nat, n: nat)
    ensures Inv(Initial(batchSize, n))
  {
    var ts := seq(n, _ => Entering);
    SumsEntering(ts);
  }

  lemma {:induction false} SumsEntering(ts: seq<Thread>)
    requires forall i :: 0 <= i < |ts| ==> ts[i].Entering?
    ensures Sum(ts, HeldF()) == Sum(ts, IdleF()) == Sum(ts, TotalF()) == 0
  {
    if ts != [] {
      SumsEntering(ts[1..]);
    }
  }

  lemma PendingSet(p: Pool, who: Who, t: Thread, c: Check)
    requires Exists(p, who) && (Pending(p, c) && PendingIn(Get(p, who), c) ==> PendingIn(t, c) || c in p.queue)
    ensures Pending(p, c) || PendingIn(t, c) ==> Pending(Set(p, who, t), c)
  {
    var q := Set(p, who, t);
    if who.Worker? {
      assert q.workers[who.i] == t;
      if i :| 0 <= i < |p.workers| && PendingIn(p.workers[i], c) && i != who.i {
        assert q.workers[i] == p.workers[i];
      }
    }
  }

  /** Putting a thread down keeps the verdict if every failed check pending there stays pending. */
  lemma VerdictSet(p: Pool, who: Who, t: Thread)
    requires Exists(p, who) && Verdict(p)
    requires t.Working? && !t.fOk ==> !Passes(p.added)
    requires p.fAllOk ==> forall c :: c in p.added && !c.passes && PendingIn(Get(p, who), c) ==> PendingIn(t, c) || c in p.queue
    ensures Verdict(Set(p, who, t))
  {
    var q := Set(p, who, t);
    if p.fAllOk {
      forall c | c in p.added && !c.passes
        ensures Pending(q, c)
      {
        PendingSet(p, who, t, c);
      }
    }
  }

  lemma EnterLock(p: Pool, who: Who)
    requires Inv(p) && Enabled(p, Enter(who))
    ensures LockInv(AtLock(CleanUp(p, who), who), who)
  {
    EnterCounts(p, who);
    EnterVerdict(p, who);
    var q := AtLock(CleanUp(p, who), who);
    assert Shape(q);
    assert Awake(q) by {
      if who.Worker? {
        assert !q.workers[who.i].Asleep?;
      }
    }
  }

  lemma SumsWakeMaster(p: Pool)
    ensures SumAll(p.(master := Wake(p.master)), HeldF()) == SumAll(p, HeldF())
    ensures SumAll(p.(master := Wake(p.master)), IdleF()) == SumAll(p, IdleF())
    ensures SumAll(p.(master := Wake(p.master)), TotalF()) == SumAll(p, TotalF())
  {
  }

  lemma EnterCounts(p: Pool, who: Who)
    requires Inv(p) && Enabled(p, Enter(who))
    ensures Counts(AtLock(CleanUp(p, who), who), 1)
  {
    SumsSet(p, who, Entering);
    if Get(p, who).Working? && p.nTodo == |Get(p, who).batch| && who.Worker? {
      SumsWakeMaster(AtLock(p, who));
    }
  }

  lemma EnterVerdict(p: Pool, who: Who)
    requires Inv(p) && Enabled(p, Enter(who))
    ensures Verdict(AtLock(CleanUp(p, who), who))
  {
    var q := CleanUp(p, who);
    var t := Get(p, who);
    if !t.Working? || t.fOk {
      VerdictSet(p, who, Entering);
      VerdictOf(AtLock(p, who), AtLock(q, who));
    }
  }

  /** The verdict depends on the checks only, not on who is awake. */
  lemma VerdictOf(p: Pool, q: Pool)
    requires Verdict(p) && |q.workers| == |p.workers|
    requires q.fAllOk == p.fAllOk && q.queue == p.queue && q.added == p.added
    requires q.master == p.master || (q.master == Wake(p.master))
    requires forall i :: 0 <= i < |p.workers| ==> q.workers[i] == p.workers[i] || q.workers[i] == Wake(p.workers[i])
    ensures Verdict(q)
  {
    if p.fAllOk {
      forall c | c in p.added && !c.passes
        ensures Pending(q, c)
      {
        assert Pending(p, c);
        if i :| 0 <= i < |p.workers| && PendingIn(p.workers[i], c) {
          assert PendingIn(q.workers[i], c);
        }
      }
    }
  }

  lemma ResumeLock(p: Pool, who: Who)
    requires Inv(p) && Enabled(p, Resume(who))
    ensures LockInv(AtLock(p.(nIdle := p.nIdle - 1), who), who)
  {
    SumsSet(p, who, Entering);
    VerdictSet(p, who, Entering);
    var q := AtLock(p.(nIdle := p.nIdle - 1), who);
    VerdictOf(AtLock(p, who), q);
    assert Awake(q) by {
      if who.Worker? {
        assert !q.workers[who.i].Asleep?;
      }
    }
  }

  /** With nothing queued and nothing held, the status is the conjunction of all checks added. */
  lemma NothingLeft(p: Pool)
    requires Counts(p, 1) && Shape(p) && Verdict(p) && p.nTodo == 0
    ensures p.queue == []
    ensures forall i :: 0 <= i < |p.workers| ==> !p.workers[i].Working?
    ensures !p.master.Working?
    ensures p.fAllOk <==> Passes(p.added)
  {
    forall i | 0 <= i < |p.workers|
      ensures !p.workers[i].Working?
    {
      SumZero(p.workers, HeldF(), i);
    }
  }

  lemma ReturnInv(p: Pool)
    requires LockInv(p, Master) && p.queue == [] && !p.stop && p.nTodo == 0
    ensures Inv(Proceed(p, Master))
  {
    NothingLeft(p);
    var q := Proceed(p, Master);
    SumsSet(p, Master, Outside);
    assert Counts(q, 0) && Shape(q) && Verdict(q) && Awake(q);
  }

  lemma SleepInv(p: Pool, who: Who)
    requires LockInv(p, who) && p.queue == [] && !p.stop && !(who.Master? && p.nTodo == 0)
    ensures Inv(Proceed(p, who))
  {
    var q := Proceed(p, who);
    SumsSet(p, who, Asleep);
    VerdictSet(p, who, Asleep);
    VerdictOf(Set(p, who, Asleep), q);
    assert Counts(q, 0) && Shape(q);
  }

  lemma GiveUpInv(p: Pool, who: Who)
    requires LockInv(p, who) && p.stop
    ensures Inv(Proceed(p, who))
  {
    var q := Proceed(p, who);
    SumsSet(p, who, OutOf(who));
    VerdictSet(p, who, OutOf(who));
    VerdictOf(Set(p, who, OutOf(who)), q);
    assert Counts(q, 0) && Shape(q);
  }

  lemma TakeInv(p: Pool, who: Who)
    requires LockInv(p, who) && p.queue != [] && !p.stop
    ensures Inv(Proceed(p, who))
  {
    var q := Proceed(p, who);
    var from := |p.queue| - BatchOf(p);
    var t := Working(p.queue[from..], 0, p.fAllOk);
    SumsSet(p, who, t);
    assert Counts(q, 0) && Shape(q) && RightAnswers(q);
    TakeVerdict(p, who, from);
    TakeAwake(p, who, from);
  }

  lemma TakeVerdict(p: Pool, who: Who, from: nat)
    requires Exists(p, who) && Get(p, who).Entering? && Verdict(p) && from <= |p.queue|
    ensures Verdict(Set(p.(queue := p.queue[..from]), who, Working(p.queue[from..], 0, p.fAllOk)))
  {
    var t := Working(p.queue[from..], 0, p.fAllOk);
    var q := Set(p.(queue := p.queue[..from]), who, t);
    assert Get(q, who) == t && t.batch[0..] == t.batch;
    if p.fAllOk {
      forall c | c in p.added && !c.passes
        ensures Pending(q, c)
      {
        assert Pending(p, c);
        if c in p.queue {
          assert p.queue == p.queue[..from] + p.queue[from..];
          assert c in q.queue || PendingIn(t, c);
        } else if i :| 0 <= i < |p.workers| && PendingIn(p.workers[i], c) {
          assert PendingIn(q.workers[i], c);
        }
      }
    }
  }

  lemma TakeAwake(p: Pool, who: Who, from: nat)
    requires Exists(p, who) && Awake(p) && from <= |p.queue| && p.queue != []
    ensures Awake(Set(p.(queue := p.queue[..from]), who, Working(p.queue[from..], 0, p.fAllOk)))
  {
    var q := Set(p.(queue := p.queue[..from]), who, Working(p.queue[from..], 0, p.fAllOk));
    if who.Worker? {
      assert !q.workers[who.i].Asleep?;
    }
  }

  lemma ProceedInv(p: Pool, who: Who)
    requires LockInv(p, who)
    ensures Inv(Proceed(p, who))
  {
    if p.stop {
      GiveUpInv(p, who);
    } else if p.queue != [] {
      TakeInv(p, who);
    } else if who.Master? && p.nTodo == 0 {
      ReturnInv(p);
    } else {
      SleepInv(p, who);
    }
  }

  lemma ExecuteInv(p: Pool, who: Who)
    requires Inv(p) && Enabled(p, Execute(who))
    ensures Inv(Do(p, Execute(who)))
  {
    var t := Get(p, who);
    var t' := t.(next := t.next + 1, fOk := t.fOk && t.batch[t.next].passes);
    SumsSet(p, who, t');
    assert Counts(Set(p, who, t'), 0);
    ExecuteVerdict(p, who, t, t');
    assert Awake(Set(p, who, t')) by {
      if who.Worker? {
        assert !Set(p, who, t').workers[who.i].Asleep?;
      }
    }
  }

  lemma ExecuteVerdict(p: Pool, who: Who, t: Thread, t': Thread)
    requires Exists(p, who) && Get(p, who) == t && t.Working? && t.next < |t.batch| && Verdict(p) && Shape(p)
    requires t' == t.(next := t.next + 1, fOk := t.fOk && t.batch[t.next].passes)
    ensures Verdict(Set(p, who, t'))
  {
    assert t.batch[t.next] in t.batch && GoodThread(t, p.added);
    forall c: Check | !c.passes && PendingIn(t, c)
      ensures PendingIn(t', c)
    {
      assert t.batch[t.next..] == [t.batch[t.next]] + t.batch[t.next + 1..];
    }
    VerdictSet(p, who, t');
  }

  lemma AddInv(p: Pool, checks: seq<Check>, notified: nat)
    requires Inv(p) && Enabled(p, Add(checks, notified))
    ensures Inv(Do(p, Add(checks, notified)))
  {
    var q := Do(p, Add(checks, notified));
    AddSums(p.workers, checks, notified, HeldF());
    AddSums(p.workers, checks, notified, IdleF());
    AddSums(p.workers, checks, notified, TotalF());
    assert Counts(q, 0);
    NotifiedThreads(p.workers, checks, notified);
    assert Shape(q);
    AddVerdict(p, q, checks);
    AddAwake(p, checks, notified);
  }

  lemma AddSums(ts: seq<Thread>, checks: seq<Check>, notified: nat, f: Thread -> nat)
    requires f(Asleep) == f(Woken)
    ensures Sum(Notified(ts, checks, notified), f) == Sum(ts, f)
  {
    if |checks| > 1 {
      SumWakeAll(ts, f);
    } else if |checks| == 1 && notified < |ts| {
      SumUpdate(ts, f, notified, Wake(ts[notified]));
    }
  }

  lemma NotifiedThreads(ts: seq<Thread>, checks: seq<Check>, notified: nat)
    ensures |Notified(ts, checks, notified)| == |ts|
    ensures forall i :: 0 <= i < |ts| ==>
              Notified(ts, checks, notified)[i] == ts[i] || Notified(ts, checks, notified)[i] == Wake(ts[i])
  {
  }

  lemma AddVerdict(p: Pool, q: Pool, checks: seq<Check>)
    requires Verdict(p) && |q.workers| == |p.workers| && q.master == p.master && q.fAllOk == p.fAllOk
    requires q.queue == p.queue + checks && q.added == p.added + checks
    requires forall i :: 0 <= i < |p.workers| ==> q.workers[i] == p.workers[i] || q.workers[i] == Wake(p.workers[i])
    ensures Verdict(q)
  {
    assert !Passes(p.added) ==> !Passes(q.added) by {
      if c :| c in p.added && !c.passes {
        assert c in q.added;
      }
    }
    if p.fAllOk {
      forall c | c in q.added && !c.passes
        ensures Pending(q, c)
      {
        if c in p.added && c !in p.queue {
          assert Pending(p, c);
          if i :| 0 <= i < |p.workers| && PendingIn(p.workers[i], c) {
            assert PendingIn(q.workers[i], c);
          }
        }
      }
    }
  }

  /** Every addition leaves a worker awake, if there is one at all. */
  lemma AddAwake(p: Pool, checks: seq<Check>, notified: nat)
    requires Awake(p) && Enabled(p, Add(checks, notified))
    ensures Awake(Do(p, Add(checks, notified)))
  {
    var q := Do(p, Add(checks, notified));
    NotifiedThreads(p.workers, checks, notified);
    if q.queue != [] && !q.stop && |q.workers| > 0 {
      if i :| 0 <= i < |p.workers| && !p.workers[i].Asleep? {
        assert !q.workers[i].Asleep?;
      } else {
        assert p.workers[0].Asleep?;
        assert |checks| == 1 ==> !q.workers[notified].Asleep?;
        assert |checks| > 1 ==> !q.workers[0].Asleep?;
      }
    }
  }

  lemma SpuriousInv(p: Pool, who: Who)
    requires Inv(p) && Enabled(p, Spurious(who))
    ensures Inv(Do(p, Spurious(who)))
  {
    var q := Set(p, who, Woken);
    SumsSet(p, who, Woken);
    VerdictSet(p, who, Woken);
    assert Counts(q, 0) && Shape(q);
    assert Awake(q) by {
      if who.Worker? {
        assert !q.workers[who.i].Asleep?;
      }
    }
  }

  lemma NotifyStopInv(p: Pool)
    requires Inv(p) && p.stop
    ensures Inv(Do(p, NotifyStop))
  {
    var q := Do(p, NotifyStop);
    SumWakeAll(p.workers, HeldF());
    SumWakeAll(p.workers, IdleF());
    SumWakeAll(p.workers, TotalF());
    VerdictOf(p, q);
    assert Counts(q, 0) && Shape(q);
  }

  lemma StartWaitInv(p: Pool)
    requires Inv(p) && p.master.Outside?
    ensures Inv(Do(p, StartWait))
  {
    SumsSet(p, Master, Entering);
    VerdictSet(p, Master, Entering);
    assert Counts(Set(p, Master, Entering), 0);
  }

  lemma RequestStopInv(p: Pool)
    requires Inv(p) && !p.stop
    ensures Inv(Do(p, RequestStop))
  {
    VerdictOf(p, Do(p, RequestStop));
    assert Counts(Do(p, RequestStop), 0) && Awake(Do(p, RequestStop));
  }

  lemma JoinInv(p: Pool)
    requires Inv(p) && Enabled(p, Join)
    ensures Inv(Do(p, Join))
  {
    var q := Do(p, Join);
    SumsGone(p.workers);
    assert Counts(q, 0) && Shape(q);
    if p.fAllOk {
      forall c | c in p.added && !c.passes
        ensures Pending(q, c)
      {
        assert Pending(p, c);
      }
    }
  }

  lemma {:induction false} SumsGone(ts: seq<Thread>)
    requires forall i :: 0 <= i < |ts| ==> ts[i].Gone?
    ensures Sum(ts, HeldF()) == Sum(ts, IdleF()) == Sum(ts, TotalF()) == 0
  {
    if ts != [] {
      SumsGone(ts[1..]);
    }
  }

  lemma StartInv(p: Pool, n: nat)
    requires Inv(p) && Enabled(p, Start(n))
    ensures Inv(Do(p, Start(n)))
  {
    var q := Do(p, Start(n));
    SumsEntering(q.workers);
    assert Counts(q, 0) && Shape(q) && Verdict(q);
    assert Awake(q) by {
      assert n > 0 ==> !q.workers[0].Asleep?;
    }
  }

  lemma EnterInv(p: Pool, who: Who)
    requires Inv(p) && Enabled(p, Enter(who))
    ensures Inv(Do(p, Enter(who)))
  {
    EnterLock(p, who);
    ProceedFromLock(CleanUp(p, who), who);
    ProceedInv(AtLock(CleanUp(p, who), who), who);
  }

  lemma ResumeInv(p: Pool, who: Who)
    requires Inv(p) && Enabled(p, Resume(who))
    ensures Inv(Do(p, Resume(who)))
  {
    ResumeLock(p, who);
    ProceedFromLock(p.(nIdle := p.nIdle - 1), who);
    ProceedInv(AtLock(p.(nIdle := p.nIdle - 1), who), who);
  }

  lemma StepInv(p: Pool, a: Action)
    requires Inv(p) && Enabled(p, a)
    ensures Inv(Do(p, a))
  {
    match a {
      case Add(checks, notified) => AddInv(p, checks, notified);
      case StartWait => StartWaitInv(p);
      case Enter(who) => EnterInv(p, who);
      case Resume(who) => ResumeInv(p, who);
      case Execute(who) => ExecuteInv(p, who);
      case Spurious(who) => SpuriousInv(p, who);
      case RequestStop => RequestStopInv(p);
      case NotifyStop => NotifyStopInv(p);
      case Join => JoinInv(p);
      case Start(n) => StartInv(p, n);
    }
  }

  // ---- Runs ----

  ghost predicate IsRun(p: Pool, actions: seq<Action>)
    decreases |actions|
  {
    actions != [] ==> Enabled(p, actions[0]) && IsRun(Do(p, actions[0]), actions[1..])
  }

  ghost function After(p: Pool, actions: seq<Action>): Pool
    requires IsRun(p, actions)
    decreases |actions|
  {
    if actions == [] then p else After(Do(p, actions[0]), actions[1..])
  }

  lemma {:induction false} RunInv(p: Pool, actions: seq<Action>)
    requires Inv(p) && IsRun(p, actions)
    ensures Inv(After(p, actions))
    decreases |actions|
  {
    if actions != [] {
      StepInv(p, actions[0]);
      RunInv(Do(p, actions[0]), actions[1..]);
    }
  }

  /** In every interleaving of any number of workers with the master: the outstanding work is what
      is queued plus what is held, and every wait that was not interrupted answered true exactly
      when all checks it is about pass, although checks may have been skipped. */
  lemma EveryRunAnswersRight(batchSize: nat, n: nat, actions: seq<Action>)
    requires IsRun(Initial(batchSize, n), actions)
    ensures var p := After(Initial(batchSize, n), actions);
            && p.nTodo == |p.queue| + SumAll(p, HeldF())
            && forall k :: 0 <= k < |p.answers| && p.answers[k].Answer? ==>
                 (p.answers[k].value <==> Passes(p.answers[k].checks))
  {
    InitialInv(batchSize, n);
    RunInv(Initial(batchSize, n), actions);
  }

  /** No lost wake-up: whenever the master sleeps, nothing is queued and a worker is at work; and
      whenever something is queued and nobody asked to stop, some worker is awake. */
  lemma NoLostWakeUp(batchSize: nat, n: nat, actions: seq<Action>)
    requires IsRun(Initial(batchSize, n), actions)
    ensures var p := After(Initial(batchSize, n), actions);
            && (p.master.Asleep? ==> p.queue == [] && p.nTodo > 0 && exists i :: 0 <= i < |p.workers| && p.workers[i].Working?)
            && (p.queue != [] && !p.stop && |p.workers| > 0 ==> exists i :: 0 <= i < |p.workers| && !p.workers[i].Asleep?)
  {
    InitialInv(batchSize, n);
    RunInv(Initial(batchSize, n), actions);
    var p := After(Initial(batchSize, n), actions);
    if p.master.Asleep? {
      var i := SumPositive(p.workers, HeldF());
      assert p.workers[i].Working?;
    }
  }

  // ---- What is left over by a stop ----

  /** The next proper answer from position `from` on is about at least the checks `due`; as long as
      there is none, these are remembered. */
  ghost predicate Remembers(p: Pool, from: nat, due: seq<Check>) {
    && from <= |p.answers|
    && (forall k :: from <= k < |p.answers| && p.answers[k].Answer? && AllInterrupted(p.answers, from, k) ==> due <= p.answers[k].checks)
    && (AllInterrupted(p.answers, from, |p.answers|) ==> due <= p.added)
  }

  ghost predicate AllInterrupted(answers: seq<Answer>, from: nat, to: nat) {
    forall k :: from <= k < to && k < |answers| ==> answers[k].Interrupted?
  }

  /** Checks are forgotten by a proper answer about them only. */
  lemma StepAnswers(p: Pool, a: Action)
    requires Enabled(p, a) && !a.Start?
    ensures var q := Do(p, a);
            || (q.answers == p.answers && p.added <= q.added)
            || (q.answers == p.answers + [Interrupted] && q.added == p.added)
            || q.answers == p.answers + [Answer(true, p.added)] || q.answers == p.answers + [Answer(false, p.added)]
  {
    if a.Enter? || a.Resume? {
      var q := if a.Enter? then CleanUp(p, a.who) else p.(nIdle := p.nIdle - 1);
      assert q.answers == p.answers && q.added == p.added;
      ProceedAnswers(q, a.who);
    }
  }

  lemma ProceedAnswers(p: Pool, who: Who)
    requires Exists(p, who)
    ensures var q := Proceed(p, who);
            || (q.answers == p.answers && q.added == p.added)
            || (q.answers == p.answers + [Interrupted] && q.added == p.added)
            || q.answers == p.answers + [Answer(p.fAllOk, p.added)]
  {
  }

  lemma StepRemembers(p: Pool, a: Action, from: nat, due: seq<Check>)
    requires Enabled(p, a) && !a.Start? && Remembers(p, from, due)
    ensures Remembers(Do(p, a), from, due)
  {
    var q := Do(p, a);
    StepAnswers(p, a);
    hide Do, Enabled;
    var n := |p.answers|;
    assert forall k :: 0 <= k < n ==> q.answers[k] == p.answers[k];
    if AllInterrupted(q.answers, from, n) {
      assert AllInterrupted(p.answers, from, n) && due <= p.added;
    }
    forall k | from <= k < |q.answers| && q.answers[k].Answer? && AllInterrupted(q.answers, from, k)
      ensures due <= q.answers[k].checks
    {
      assert k < n ==> AllInterrupted(p.answers, from, k);
    }
    if AllInterrupted(q.answers, from, |q.answers|) {
      assert |q.answers| > n ==> q.answers[n].Interrupted?;
    }
  }

  lemma {:induction false} RunRemembers(p: Pool, actions: seq<Action>, from: nat, due: seq<Check>)
    requires IsRun(p, actions) && Remembers(p, from, due)
    requires forall k :: 0 <= k < |actions| ==> !actions[k].Start?
    ensures Remembers(After(p, actions), from, due)
    decreases |actions|
  {
    if actions != [] {
      StepRemembers(p, actions[0], from, due);
      RunRemembers(Do(p, actions[0]), actions[1..], from, due);
    }
  }

  /** Checks left in the queue by a stop are done by the next workers, and the next answer is about
      them as well: if one of them fails it is false, whatever is added. Failures found before the
      new start are forgotten. */
  lemma LeftoversDecide(p: Pool, n: nat, actions: seq<Action>)
    requires Inv(p) && Enabled(p, Start(n)) && IsRun(Do(p, Start(n)), actions)
    requires forall k :: 0 <= k < |actions| ==> !actions[k].Start?
    ensures var (q, r, m) := (Do(p, Start(n)), After(Do(p, Start(n)), actions), |p.answers|);
            && q.queue == p.queue && q.nTodo == |p.queue| && q.fAllOk
            && forall k :: m <= k < |r.answers| && r.answers[k].Answer? && AllInterrupted(r.answers, m, k) ==>
                 && p.queue <= r.answers[k].checks
                 && (!Passes(p.queue) ==> !r.answers[k].value)
  {
    var q := Do(p, Start(n));
    StartInv(p, n);
    SumsEntering(q.workers);
    RunInv(q, actions);
    RunRemembers(q, actions, |p.answers|, p.queue);
  }

  // ---- Waiting comes to an end ----

  predicate InLoop(t: Thread) {
    t.Entering? || t.Working? || t.Asleep? || t.Woken?
  }

  /** A step of a thread in the loop, as opposed to the master adding, a stop or a stray wake-up. */
  predicate LoopStep(a: Action) {
    a.Enter? || a.Resume? || a.Execute?
  }

  function WeightF(): Thread -> nat {
    (t: Thread) =>
      if t.Working? then 2 + (if t.next <= |t.batch| then |t.batch| - t.next else 0)
      else if t.Entering? || t.Woken? then 1
      else 0
  }

  function Effort(p: Pool): nat {
    3 * |p.queue| + SumAll(p, WeightF())
  }

  lemma ProceedEffort(p: Pool, who: Who)
    requires Exists(p, who) && Get(p, who).Entering?
    ensures Effort(Proceed(p, who)) < Effort(p)
  {
    if p.queue == [] && !p.stop {
      SumSet(p, who, if who.Master? && p.nTodo == 0 then Outside else Asleep, WeightF());
    } else if p.stop {
      SumSet(p, who, OutOf(who), WeightF());
    } else {
      var from := |p.queue| - BatchOf(p);
      SumSet(p, who, Working(p.queue[from..], 0, p.fAllOk), WeightF());
    }
  }

  lemma CleanUpEffort(p: Pool, who: Who)
    requires Enabled(p, Enter(who))
    ensures Effort(AtLock(CleanUp(p, who), who)) <= Effort(p)
  {
    SumSet(p, who, Entering, WeightF());
  }

  lemma EffortDecreases(p: Pool, a: Action)
    requires Inv(p) && Enabled(p, a) && LoopStep(a)
    ensures Effort(Do(p, a)) < Effort(p)
  {
    var who := a.who;
    var t := Get(p, who);
    if a.Execute? {
      SumSet(p, who, t.(next := t.next + 1, fOk := t.fOk && t.batch[t.next].passes), WeightF());
    } else {
      var q := if a.Enter? then CleanUp(p, who) else p.(nIdle := p.nIdle - 1);
      if a.Enter? {
        CleanUpEffort(p, who);
      } else {
        SumSet(p, who, Entering, WeightF());
        assert Effort(AtLock(q, who)) <= Effort(p);
      }
      hide CleanUp, Proceed, Inv, Effort;
      ProceedFromLock(q, who);
      ProceedEffort(AtLock(q, who), who);
    }
  }

  lemma NeverStuck(p: Pool) returns (a: Action)
    requires Inv(p) && InLoop(p.master)
    ensures LoopStep(a) && Enabled(p, a)
  {
    var who := Master;
    if p.master.Asleep? {
      var i := SumPositive(p.workers, HeldF());
      who := Worker(i);
    }
    var t := Get(p, who);
    a := if t.Woken? then Resume(who)
         else if t.Working? && t.next < |t.batch| then Execute(who)
         else Enter(who);
  }

  /** Stray wake-ups aside, a wait is over after a number of steps known in advance, whatever the
      schedule; and until it is over some thread can always take a step. */
  lemma {:induction false} WaitReturns(p: Pool, actions: seq<Action>)
    requires Inv(p) && IsRun(p, actions)
    requires forall k :: 0 <= k < |actions| ==> LoopStep(actions[k])
    ensures |actions| <= Effort(p)
    ensures InLoop(After(p, actions).master) ==> exists a :: LoopStep(a) && Enabled(After(p, actions), a)
    decreases |actions|
  {
    if actions != [] {
      StepInv(p, actions[0]);
      EffortDecreases(p, actions[0]);
      WaitReturns(Do(p, actions[0]), actions[1..]);
    } else if InLoop(p.master) {
      var a := NeverStuck(p);
    }
  }

  // ---- Stopping comes to an end ----

  ghost predicate NoneAsleep(p: Pool) {
    forall i :: 0 <= i < |p.workers| ==> !p.workers[i].Asleep?
  }

  /** Once told to stop, nobody falls asleep again. */
  lemma StopStep(p: Pool, a: Action)
    requires p.stop && NoneAsleep(p) && Enabled(p, a) && LoopStep(a)
    ensures Do(p, a).stop && NoneAsleep(Do(p, a))
  {
  }

  /** A worker that has not left yet can take a step. */
  lemma StopProgress(p: Pool, i: nat) returns (a: Action)
    requires Inv(p) && NoneAsleep(p) && i < |p.workers| && !p.workers[i].Gone?
    ensures LoopStep(a) && Enabled(p, a)
  {
    var t := p.workers[i];
    assert GoodThread(t, p.added) && !t.Outside?;
    a := if t.Woken? then Resume(Worker(i))
         else if t.Working? && t.next < |t.batch| then Execute(Worker(i))
         else Enter(Worker(i));
  }

  /** Once the workers have been told to stop, they have all left after a number of steps known in advance,
      whatever the schedule, and can be joined. */
  lemma StopEnds(p: Pool, actions: seq<Action>)
    requires Inv(p) && p.stop && IsRun(Do(p, NotifyStop), actions)
    requires forall k :: 0 <= k < |actions| ==> LoopStep(actions[k])
    ensures |actions| <= Effort(Do(p, NotifyStop))
    ensures var q := After(Do(p, NotifyStop), actions); Enabled(q, Join) || exists a :: LoopStep(a) && Enabled(q, a)
  {
    var q := Do(p, NotifyStop);
    StepInv(p, NotifyStop);
    WaitReturns(q, actions);
    StopRun(q, actions);
    RunInv(q, actions);
    var r := After(q, actions);
    if i: nat :| i < |r.workers| && !r.workers[i].Gone? {
      var a := StopProgress(r, i);
    }
  }

  lemma {:induction false} StopRun(p: Pool, actions: seq<Action>)
    requires p.stop && NoneAsleep(p) && IsRun(p, actions) && forall k :: 0 <= k < |actions| ==> LoopStep(actions[k])
    ensures After(p, actions).stop && NoneAsleep(After(p, actions))
    decreases |actions|
  {
    if actions != [] {
      StopStep(p, actions[0]);
      StopRun(Do(p, actions[0]), actions[1..]);
    }
  }
}
